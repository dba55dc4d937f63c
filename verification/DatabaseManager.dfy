/** The manager of the user's and the system's service database: src/serviceframework/databasemanager.cpp. */
module DatabaseManager {
  import opened Text
  import opened Descriptor
  import opened ServiceFilter
  import opened ServiceTables
  import opened ServiceUpdates
  import opened ServiceStorage
  import opened ServiceScopes
  import opened D = ServiceDatabase

  /** Whether a transaction is open, how often an engine has refused a statement, and how often to roll back. */
  datatype Progress = Progress(quiet: bool, faults: nat, stuck: nat)

  /** What a call does to refusals and open transactions: each refused rollback is a refusal, no transaction
      is left open unless a rollback was refused, and an open one stays open. */
  ghost predicate Proceeded(before: Progress, after: Progress) {
    && before.faults <= after.faults && before.stuck <= after.stuck
    && (after.faults == before.faults ==> after.stuck == before.stuck)
    && (if before.quiet then after.quiet <==> after.stuck == before.stuck else !after.quiet)
  }

  class DatabaseManager {
    const userDb: ServiceDatabase
    const systemDb: ServiceDatabase
    var lastError: Error

    function U(): Tables
      reads userDb
    {
      userDb.Disk()
    }

    function S(): Tables
      reads systemDb
    {
      systemDb.Disk()
    }

    ghost function Faults(): nat
      reads userDb, systemDb
    {
      userDb.faults + systemDb.faults
    }

    /** No transaction is left open. */
    ghost predicate Quiet()
      reads userDb, systemDb
    {
      userDb.saved.None? && systemDb.saved.None?
    }

    ghost function Now(): Progress
      reads userDb, systemDb
    {
      Progress(Quiet(), Faults(), userDb.stuck + systemDb.stuck)
    }

    /** Other processes may have changed both databases, as long as this holds. */
    ghost predicate Valid()
      reads userDb, systemDb
    {
      && userDb != systemDb
      && userDb.Valid() && systemDb.Valid()
      && AllLocal(S()) && Linked(U().defaults, userDb.nextId, S().interfaces, systemDb.nextId)
    }

    constructor ()
      ensures Valid() && Quiet() && !userDb.isOpen && !systemDb.isOpen && fresh(userDb) && fresh(systemDb)
    {
      userDb := new ServiceDatabase(0);
      systemDb := new ServiceDatabase(1);
      lastError := NoError;
    }

    // -----------------------------------------------------------------------------------------
    // Opening
    // -----------------------------------------------------------------------------------------

    /** openDb: opening the system's database while the user's is open resets the external defaults. */
    method OpenDb(scope: Scope) returns (ok: bool)
      requires Valid()
      modifies `lastError, userDb, systemDb
      ensures Valid()
      ensures ok == if scope == SystemScope then systemDb.isOpen else userDb.isOpen
      ensures !ok ==>
                lastError in {InvalidDatabaseFile, CannotOpenServiceDb}
                && (scope == SystemScope ==> systemDb.lastError != NoError)
      ensures ok ==> lastError == if old(if scope == SystemScope then systemDb.isOpen else userDb.isOpen)
                then old(lastError) else NoError
      ensures if scope == SystemScope then userDb.isOpen == old(userDb.isOpen)
                else systemDb.isOpen == old(systemDb.isOpen)
      ensures (old(userDb.isOpen) ==> userDb.isOpen) && (old(systemDb.isOpen) ==> systemDb.isOpen)
      ensures OnlyDefaults(old(U()), U(), old(S()), S()) && userDb.nextId == old(userDb.nextId)
                && systemDb.nextId == old(systemDb.nextId)
      ensures Proceeded(old(Now()), Now())
      ensures !(scope == SystemScope && !old(systemDb.isOpen) && ok && userDb.isOpen) ==>
                U() == old(U()) && Faults() == old(Faults()) && userDb.saved == old(userDb.saved)
                  && systemDb.saved == old(systemDb.saved)
      ensures scope == SystemScope && (!ok || old(systemDb.isOpen)) ==> userDb.lastError == old(userDb.lastError)
      ensures scope == SystemScope && !old(systemDb.isOpen) && ok && userDb.isOpen && Faults() == old(Faults())
                && old(Quiet()) ==>
                SettledBut(U(), S(), []) && Cleaned(old(U()), U(), S())
      decreases if systemDb.isOpen then 0 else 1, 1
    {
      hide Integrity, Linked, AllLocal, SettledBut, Cleaned;
      if scope == SystemScope {
        if systemDb.isOpen {
          return true;
        }
        ok := systemDb.Open();
        if !ok {
          lastError := if systemDb.lastError == InvalidDatabaseFile then InvalidDatabaseFile else CannotOpenServiceDb;
          return;
        }
        if userDb.isOpen {
          ResetExternalDefaults();
        }
      } else {
        if userDb.isOpen {
          return true;
        }
        ok := userDb.Open();
        if !ok {
          lastError := if userDb.lastError == InvalidDatabaseFile then InvalidDatabaseFile else CannotOpenServiceDb;
          return;
        }
      }
      lastError := NoError;
    }

    /** The loop that resets them: each is looked for among the user's own interfaces, where it never is. */
    method ResetExternalDefaults()
      requires Valid() && userDb.isOpen && systemDb.isOpen
      modifies `lastError, userDb, systemDb
      ensures Valid() && userDb.isOpen && systemDb.isOpen
      ensures OnlyDefaults(old(U()), U(), old(S()), S()) && userDb.nextId == old(userDb.nextId)
                && systemDb.nextId == old(systemDb.nextId)
      ensures Proceeded(old(Now()), Now())
      ensures Faults() == old(Faults()) && old(Quiet()) ==> SettledBut(U(), S(), []) && Cleaned(old(U()), U(), S())
      decreases if systemDb.isOpen then 0 else 1, 6
    {
      hide Integrity, Linked, AllLocal, SettledBut, Cleaned, Cleaning, ExternalDefaults, ListsExternals;
      ghost var before := U();
      var info := userDb.ExternalDefaultsInfo();
      if Faults() == old(Faults()) && old(Quiet()) {
        AllListed(before, info);
        CleaningEnds(before, S(), info);
      }
      var k := 0;
      while k < |info|
        invariant k <= |info| && Valid() && userDb.isOpen && systemDb.isOpen
        invariant OnlyDefaults(before, U(), old(S()), S()) && userDb.nextId == old(userDb.nextId)
                    && systemDb.nextId == old(systemDb.nextId)
        invariant Proceeded(old(Now()), Now())
        invariant Faults() == old(Faults()) && old(Quiet()) ==>
                    ListsExternals(before, info) && SettledBut(U(), S(), info[k..])
                    && Cleaning(before, U(), S(), info, k)
      {
        ResetExternalDefault(info, k, before);
        k := k + 1;
      }
      assert info[|info|..] == [];
      if ListsExternals(before, info) {
        CleaningEnds(before, S(), info);
      }
    }

    method ResetExternalDefault(info: seq<DefaultRow>, k: nat, ghost before: Tables)
      requires Valid() && userDb.isOpen && systemDb.isOpen && k < |info|
      requires Integrity(before, userDb.nextId)
                 && Linked(before.defaults, userDb.nextId, S().interfaces, systemDb.nextId)
      requires U() == before.(defaults := U().defaults)
      modifies `lastError, userDb, systemDb
      ensures Valid() && userDb.isOpen && systemDb.isOpen
      ensures OnlyDefaults(old(U()), U(), old(S()), S()) && userDb.nextId == old(userDb.nextId)
                && systemDb.nextId == old(systemDb.nextId)
      ensures Proceeded(old(Now()), Now())
      ensures Faults() == old(Faults()) && old(Quiet()) && ListsExternals(before, info)
                && SettledBut(old(U()), S(), info[k..]) ==>
                SettledBut(U(), S(), info[k + 1..])
      ensures Faults() == old(Faults()) && old(Quiet()) && ListsExternals(before, info)
                && Cleaning(before, old(U()), S(), info, k) ==>
                Cleaning(before, U(), S(), info, k + 1)
      decreases if systemDb.isOpen then 0 else 1, 5
    {
      hide Integrity, Linked, AllLocal, SettledBut, Cleaned, Cleaning, ListsExternals, Reset, GoodReset;
      var id, name := info[k].interfaceId, info[k].interfaceName;
      ghost var u0, s0, un, sn := U(), S(), userDb.nextId, systemDb.nextId;
      ghost var faults0 := Faults();
      if ListsExternals(before, info) {
        ListedExternal(before, un, s0, sn, info, k);
        DefaultsAside(before, u0);
        SameInterfaces(before, u0);
      }
      var found := userDb.GetInterface(id);
      if userDb.lastError == NotFound {
        ghost var choice;
        found, choice := ResetDefault(id, name);
        if Faults() == faults0 && old(Quiet()) && ListsExternals(before, info) {
          if SettledBut(u0, s0, info[k..]) {
            assert info[k..] == [info[k]] + info[k + 1..];
            ResetSettles(u0, s0, info[k], info[k + 1..], choice);
          }
          if Cleaning(before, u0, s0, info, k) {
            CleaningStep(before, un, u0, s0, sn, info, k, choice);
          }
        }
      }
    }

    /** A stale default is removed, and the newest implementation of its name in both scopes becomes the
        default, if there is one and all can be read. */
    method ResetDefault(id: Id, name: string) returns (found: Option<Descriptor>, ghost choice: Option<DefaultRow>)
      requires Valid() && userDb.isOpen && systemDb.isOpen
      modifies `lastError, userDb, systemDb
      ensures Valid() && userDb.isOpen && systemDb.isOpen
      ensures OnlyDefaults(old(U()), U(), old(S()), S()) && userDb.nextId == old(userDb.nextId)
                && systemDb.nextId == old(systemDb.nextId)
      ensures Proceeded(old(Now()), Now())
      ensures found.Some? ==>
                InScope(U(), S(), found.value) && (name != "" ==> SameName(found.value.interfaceName, name))
      ensures found.Some? <==> choice.Some?
      ensures found.Some? ==>
                choice.value.interfaceName == found.value.interfaceName
                && LoadsAs(U(), S(), choice.value.interfaceId, found.value)
      ensures choice.Some? ==> Exists(old(U()), S(), choice.value.interfaceId)
      ensures Faults() == old(Faults()) && old(Quiet()) && id !in InterfaceIds(old(U()).interfaces) ==>
                U() == Reset(old(U()), id, choice)
      ensures Faults() == old(Faults()) && old(Quiet()) && name != "" ==> GoodReset(old(U()), S(), name, choice)
      decreases if systemDb.isOpen then 0 else 1, 4
    {
      hide Integrity, Linked, AllLocal, GoodReset, Reset, InScope, LoadsAs, Exists, ScopedAnswers, NameFilter, Best,
        BeatsUser, Lower, WithDefault, WithoutDefaultsTo, Readable, QueryStored;
      ghost var u0 := U();
      found, choice := None, None;
      RemoveStale(id);
      ghost var u1 := U();
      var descriptors;
      ghost var rows;
      descriptors, rows := GetInterfaces(NameFilter(name), UserScope);
      if name != "" {
        NameReadable(u0, u1, userDb.nextId, S(), systemDb.nextId, name);
      }
      if |descriptors| == 0 {
        ResetNone(u0, id);
        NoneUnreadable(u0, S(), name);
        if lastError == NoError && name != "" {
          NoneGood(u0, u1, userDb.nextId, S(), systemDb.nextId, name, descriptors, rows);
        }
      } else {
        var latest;
        ghost var cid;
        latest, cid := ChooseNewest(name, descriptors, rows);
        found, choice := Some(latest), Some(DefaultRow(latest.interfaceName, cid));
        ResetSome(u0, u1, S(), id, name, latest.interfaceName, cid);
        LoadsAside(U(), u0, S(), cid, latest);
        LoadsInScope(u0, S(), cid, latest);
        LoadsInScope(U(), S(), cid, latest);
      }
    }

    /** The newest of the interfaces found becomes the default. */
    method ChooseNewest(name: string, descriptors: seq<Descriptor>, ghost rows: seq<ScopedRow>)
        returns (latest: Descriptor, ghost cid: Id)
      requires Valid() && userDb.isOpen && systemDb.isOpen && |descriptors| > 0
      requires ScopedAnswers(U(), S(), {UserScope, SystemScope}, NameFilter(name), descriptors, rows)
      modifies `lastError, userDb, systemDb
      ensures Valid() && userDb.isOpen && systemDb.isOpen
      ensures OnlyDefaults(old(U()), U(), old(S()), S()) && userDb.nextId == old(userDb.nextId)
                && systemDb.nextId == old(systemDb.nextId)
      ensures Proceeded(old(Now()), Now())
      ensures Faults() == old(Faults()) && old(Quiet()) ==> U() == WithDefault(old(U()), latest.interfaceName, cid)
      ensures LoadsAs(U(), S(), cid, latest)
      ensures name != "" ==>
                SameName(latest.interfaceName, name) && Best(cid, Lower(name), Both(old(U()), S()))
                  && BeatsUser(old(U()), S(), name, cid)
      decreases if systemDb.isOpen then 0 else 1, 3
    {
      hide Integrity, Linked, AllLocal, InScope, LoadsAs, Exists, ScopedAnswers, NameFilter, Best, BeatsUser, Lower,
        WithDefault;
      ghost var u1, s0, un, sn := U(), S(), userDb.nextId, systemDb.nextId;
      AnswerCount(u1, s0, {UserScope, SystemScope}, NameFilter(name), descriptors, rows);
      var l := LatestIndex(descriptors);
      latest := descriptors[l];
      cid := rows[l].1.1.id;
      AnswerLoads(u1, s0, {UserScope, SystemScope}, NameFilter(name), descriptors, rows, l);
      LoadsInScope(u1, s0, cid, latest);
      if name != "" {
        NewestAnswer(u1, un, s0, sn, name, descriptors, rows, l);
      }
      var ok;
      ghost var id, asked;
      ok, id, asked := SetInterfaceDefault(latest, UserScope);
      if ok {
        AnswerRow(u1, un, s0, sn, {UserScope, SystemScope}, NameFilter(name), descriptors, rows, l, id);
        SetFrame(u1, latest.interfaceName, id);
      }
      LoadsAside(u1, U(), S(), cid, latest);
    }

    /** The stale default goes. */
    method RemoveStale(id: Id)
      requires Valid() && userDb.isOpen
      modifies userDb
      ensures Valid() && userDb.isOpen
      ensures OnlyDefaults(old(U()), U(), old(S()), S()) && userDb.nextId == old(userDb.nextId)
      ensures Proceeded(old(Now()), Now())
      ensures Faults() == old(Faults()) && old(Quiet()) && id !in InterfaceIds(old(U()).interfaces) ==>
                U() == WithoutDefaultsTo(old(U()), id)
      ensures U() == old(U()) || U() == WithoutDefaultsTo(old(U()), id)
    {
      LinkedWithout(U(), userDb.nextId, S(), systemDb.nextId, id);
      hide Integrity, Linked, AllLocal, WithoutDefaultsTo;
      var removed := userDb.RemoveExternalDefault(id);
    }

    // -----------------------------------------------------------------------------------------
    // Queries
    // -----------------------------------------------------------------------------------------

    /** getInterfaces: at user scope, the user's and the system's, as far as that can be opened. `rows` are the
        rows of the result, in the same order. */
    method GetInterfaces(filter: Filter, scope: Scope) returns (result: seq<Descriptor>, ghost rows: seq<ScopedRow>)
      requires Valid()
      modifies `lastError, userDb, systemDb
      ensures Valid()
      ensures old(userDb.isOpen) ==> userDb.isOpen
      ensures old(systemDb.isOpen) ==> systemDb.isOpen
      ensures OnlyDefaults(old(U()), U(), old(S()), S()) && userDb.nextId == old(userDb.nextId)
                && systemDb.nextId == old(systemDb.nextId)
      ensures Proceeded(old(Now()), Now())
      ensures old(systemDb.isOpen) ==> U() == old(U())
      ensures lastError == NoError ==>
                (scope == UserScope ==> userDb.isOpen) && (scope == SystemScope ==> systemDb.isOpen)
      ensures lastError == NoError ==> ScopedAnswers(U(), S(), Asked(scope, systemDb.isOpen), filter, result, rows)
      ensures lastError == NoError ==>
                var f := filter;
                forall x: ScopedRow | x.1 in Joined(if x.0 == UserScope then U() else S())
                                      && (if x.0 == UserScope then scope == UserScope else systemDb.isOpen) ::
                  var d := LoadedIn(U(), S(), x);
                  d in result && d.scope == x.0 <==>
                  && (f.serviceName == "" || SameName(d.serviceName, f.serviceName))
                  && (f.interfaceName == "" || SameName(d.interfaceName, f.interfaceName))
                  && (f.interfaceName == "" || f.majorVersion < 0 || f.minorVersion < 0
                      || if f.matchingRule == ExactVersionMatch
                         then d.major == f.majorVersion && d.minor == f.minorVersion
                         else !(d.major < f.majorVersion || (d.major == f.majorVersion && d.minor < f.minorVersion)))
                  && (f.capMatchingRule == MatchMinimum ==>
                        forall c | c in f.capabilities ::
                          d.attributes.capabilities.Some? && c in d.attributes.capabilities.value)
                  && (f.capMatchingRule == MatchLoadable && d.attributes.capabilities.Some? ==>
                        forall c | c in d.attributes.capabilities.value :: c in f.capabilities)
                  && (forall key | key in f.customAttributes ::
                        key in d.customAttributes && d.customAttributes[key] == f.customAttributes[key])
      ensures lastError != NoError ==> result == []
      ensures Faults() == old(Faults()) && (if scope == SystemScope then systemDb.isOpen else userDb.isOpen) ==>
                (lastError == NoError <==> QueryStored(old(U()), S(), Asked(scope, systemDb.isOpen), filter))
      decreases if systemDb.isOpen then 0 else 1, 2, 1
    {
      hide Integrity, Linked, AllLocal, ScopedAnswers, Answers, AllStored, Selected, Joined, LoadedIn, SameName;
      result, rows := [], [];
      NoAnswers(U(), S(), filter);
      if scope == UserScope {
        var ok;
        ok, result, rows := UserInterfaces(filter);
        if !ok {
          return;
        }
      }
      result, rows := SystemInterfaces(filter, scope, result, rows);
      if lastError == NoError {
        ScopedExactly(U(), S(), Asked(scope, systemDb.isOpen), filter, result, rows);
        ScopesMarked(U(), S());
      }
    }

    method UserInterfaces(filter: Filter) returns (ok: bool, result: seq<Descriptor>, ghost rows: seq<ScopedRow>)
      requires Valid()
      modifies `lastError, userDb, systemDb
      ensures Valid()
      ensures old(userDb.isOpen) ==> userDb.isOpen
      ensures systemDb.isOpen == old(systemDb.isOpen)
      ensures U() == old(U()) && S() == old(S()) && userDb.nextId == old(userDb.nextId)
                && systemDb.nextId == old(systemDb.nextId)
      ensures Proceeded(old(Now()), Now())
      ensures ok ==> userDb.isOpen && ScopedAnswers(U(), S(), {UserScope}, filter, result, rows)
      ensures !ok ==> result == [] && lastError != NoError
      ensures Faults() == old(Faults()) && userDb.isOpen ==> (ok <==> AllStored(U(), Selected(U(), filter)))
      decreases if systemDb.isOpen then 0 else 1, 2, 0
    {
      hide Integrity, Linked, AllLocal, ScopedAnswers, Answers, AllStored, Selected;
      result, rows := [], [];
      ok := OpenDb(UserScope);
      if !ok {
        return;
      }
      var own;
      ghost var ownRows;
      own, ownRows := userDb.GetInterfaces(filter);
      if userDb.lastError != NoError {
        lastError := userDb.lastError;
        return false, [], [];
      }
      NoAnswers(U(), S(), filter);
      MoreAnswers(U(), S(), {}, filter, [], [], UserScope, own, ownRows);
      result := Mark(own, 0, UserScope);
      rows := MarkedRows(ownRows, UserScope);
      assert [] + Marked(own, UserScope) == result && [] + rows == rows && {} + {UserScope} == {UserScope};
    }

    method SystemInterfaces(filter: Filter, scope: Scope, before: seq<Descriptor>, ghost rowsBefore: seq<ScopedRow>)
      returns (result: seq<Descriptor>, ghost rows: seq<ScopedRow>)
      requires Valid() && (scope == UserScope ==> userDb.isOpen)
      requires ScopedAnswers(U(), S(), if scope == UserScope then {UserScope} else {}, filter, before, rowsBefore)
      modifies `lastError, userDb, systemDb
      ensures Valid()
      ensures userDb.isOpen == old(userDb.isOpen)
      ensures old(systemDb.isOpen) ==> systemDb.isOpen
      ensures OnlyDefaults(old(U()), U(), old(S()), S()) && userDb.nextId == old(userDb.nextId)
                && systemDb.nextId == old(systemDb.nextId)
      ensures Proceeded(old(Now()), Now())
      ensures old(systemDb.isOpen) ==> U() == old(U())
      ensures lastError == NoError && scope == SystemScope ==> systemDb.isOpen
      ensures lastError == NoError ==> ScopedAnswers(U(), S(), Asked(scope, systemDb.isOpen), filter, result, rows)
      ensures lastError != NoError ==> result == []
      ensures Faults() == old(Faults()) ==>
                (lastError == NoError <==>
                 if systemDb.isOpen then AllStored(S(), Selected(S(), filter)) else scope == UserScope)
      decreases if systemDb.isOpen then 0 else 1, 2, 0
    {
      hide Integrity, Linked, AllLocal, ScopedAnswers, Answers, AllStored, Selected;
      ghost var u0 := U();
      ghost var scopes := if scope == UserScope then {UserScope} else {};
      result, rows := before, rowsBefore;
      var ok := OpenDb(SystemScope);
      ScopedAside(u0, U(), S(), scopes, filter, before, rowsBefore);
      if ok {
        var more;
        ghost var moreRows;
        more, moreRows := SystemQuery(filter);
        if systemDb.lastError != NoError {
          lastError := systemDb.lastError;
          return [], [];
        }
        MoreAnswers(U(), S(), scopes, filter, before, rowsBefore, SystemScope, more, moreRows);
        assert scopes + {SystemScope} == Asked(scope, true);
        result := Mark(before + more, |before|, SystemScope);
        assert (before + more)[..|before|] == before && (before + more)[|before|..] == more;
        rows := rows + MarkedRows(moreRows, SystemScope);
      } else if scope == SystemScope {
        return [], [];
      }
      lastError := NoError;
    }

    method SystemQuery(filter: Filter) returns (more: seq<Descriptor>, ghost moreRows: seq<JoinedRow>)
      requires Valid() && systemDb.isOpen
      modifies systemDb
      ensures Valid() && systemDb.isOpen && S() == old(S()) && systemDb.nextId == old(systemDb.nextId)
      ensures Proceeded(old(Now()), Now())
      ensures systemDb.lastError == NoError ==> Answers(S(), filter, more, moreRows)
      ensures Faults() == old(Faults()) ==> (systemDb.lastError == NoError <==> AllStored(S(), Selected(S(), filter)))
    {
      hide Integrity, Linked, AllLocal, Answers, AllStored, Selected;
      more, moreRows := systemDb.GetInterfaces(filter);
    }

    /** The loop that writes a scope into the descriptors from some index on. */
    method Mark(ds: seq<Descriptor>, from: nat, scope: Scope) returns (r: seq<Descriptor>)
      requires from <= |ds|
      ensures r == ds[..from] + Marked(ds[from..], scope)
    {
      r := ds;
      var i := from;
      while i < |r|
        invariant from <= i <= |r| == |ds|
        invariant forall k | 0 <= k < |r| :: r[k] == if from <= k < i then ds[k].(scope := scope) else ds[k]
      {
        r := r[i := r[i].(scope := scope)];
        i := i + 1;
      }
      assert r == ds[..from] + Marked(ds[from..], scope);
    }

    method LatestIndex(descriptors: seq<Descriptor>) returns (l: nat)
      requires |descriptors| > 0
      ensures l < |descriptors| && forall k | 0 <= k < |descriptors| :: !LowerVersion(descriptors[l], descriptors[k])
      ensures forall k | 0 <= k < l :: LowerVersion(descriptors[k], descriptors[l])
      ensures forall k | 0 <= k < |descriptors| :: var d, e := descriptors[k], descriptors[l];
                d.major < e.major || (d.major == e.major && if k < l then d.minor < e.minor else d.minor <= e.minor)
    {
      l := 0;
      var i := 1;
      while i < |descriptors|
        invariant l < i <= |descriptors|
        invariant forall k | 0 <= k < i :: !LowerVersion(descriptors[l], descriptors[k])
        invariant forall k | 0 <= k < l :: LowerVersion(descriptors[k], descriptors[l])
      {
        if LowerVersion(descriptors[l], descriptors[i]) {
          l := i;
        }
        i := i + 1;
      }
    }

    // -----------------------------------------------------------------------------------------
    // Services
    // -----------------------------------------------------------------------------------------

    /** registerService. `asked` are the user's tables once the database was open. */
    method RegisterService(service: Results, scope: Scope) returns (ok: bool, ghost asked: Tables)
      requires Valid() && ServiceOk(service)
      modifies `lastError, userDb, systemDb
      ensures Valid()
      ensures ok <==> lastError == NoError
      ensures Proceeded(old(Now()), Now())
      ensures OnlyDefaults(old(U()), asked, old(S()), old(S()))
                && (scope == UserScope || old(systemDb.isOpen) ==> asked == old(U()))
      ensures ok ==>
                && Registrable(if scope == SystemScope then old(S()) else old(U()), service)
                && if scope == SystemScope then systemDb.isOpen else userDb.isOpen
      ensures ok && scope == UserScope ==> U() == Registered(old(U()), service, old(userDb.nextId)) && S() == old(S())
      ensures ok && scope == SystemScope ==> U() == asked && S() == Registered(old(S()), service, old(systemDb.nextId))
      ensures !ok ==> U() == asked && S() == old(S())
      ensures Faults() == old(Faults()) && old(Quiet())
                && (if scope == SystemScope then systemDb.isOpen else userDb.isOpen) ==>
                RightError(if scope == SystemScope then old(S()) else old(U()), service, ok, lastError)
    {
      hide Integrity, Linked, AllLocal, Registered, ServiceOk, Registrable, AllReadable, SettledBut, Cleaned, Populated,
        RightError;
      ok := OpenDb(scope);
      asked := U();
      if !ok {
        return;
      }
      ghost var u, un, s, sn := U(), userDb.nextId, S(), systemDb.nextId;
      if scope == SystemScope {
        ok := systemDb.RegisterService(service);
        lastError := if ok then NoError else systemDb.lastError;
        if ok {
          RegisteredKeeps(s, service, sn);
          LinkedSystemRegistered(u, un, s, sn, service, systemDb.nextId);
        } else {
          LinksStay(u.defaults, un, s.interfaces, sn, s.interfaces, systemDb.nextId);
        }
      } else {
        ok := userDb.RegisterService(service);
        lastError := if ok then NoError else userDb.lastError;
        if ok {
          LinkedUserRegistered(u, un, s, sn, service, userDb.nextId);
        } else {
          LinkedLater(u.defaults, un, s.interfaces, sn, userDb.nextId);
        }
      }
    }

    /** unregisterService. */
    method UnregisterService(name: string, scope: Scope) returns (ok: bool, ghost asked: Tables, ghost chosen: Choice)
      requires Valid()
      modifies `lastError, userDb, systemDb
      ensures Valid()
      ensures ok <==> lastError == NoError
      ensures Proceeded(old(Now()), Now())
      ensures OnlyDefaults(old(U()), asked, old(S()), old(S()))
                && (scope == UserScope || old(systemDb.isOpen) ==> asked == old(U()))
      ensures Faults() == old(Faults()) && old(Quiet())
                && (if scope == SystemScope then old(systemDb.isOpen) else old(userDb.isOpen)) ==>
                (ok <==> NamedServices(if scope == SystemScope then old(S()) else old(U()), name) != {})
                  && (!ok ==> lastError == NotFound)
      ensures ok && scope == UserScope ==>
                GoodChoice(old(U()), name, chosen) && U() == Unregistered(old(U()), name, chosen) && S() == old(S())
      ensures ok && scope == SystemScope ==>
                U() == asked && GoodChoice(old(S()), name, chosen) && S() == Unregistered(old(S()), name, chosen)
      ensures !ok ==> U() == asked && S() == old(S())
    {
      hide Integrity, Linked, AllLocal, Unregistered, GoodChoice, NamedServices, SettledBut, Cleaned, Populated;
      chosen := map[];
      ok := OpenDb(scope);
      asked := U();
      if !ok {
        return;
      }
      ghost var u, un, s, sn := U(), userDb.nextId, S(), systemDb.nextId;
      if scope == SystemScope {
        ok, chosen := systemDb.UnregisterService(name);
        lastError := if ok then NoError else systemDb.lastError;
        if ok {
          UnregisteredKeeps(s, sn, name, chosen);
          LinkedSystemUnregistered(u, un, s, sn, name, chosen);
        }
      } else {
        ok, chosen := userDb.UnregisterService(name);
        lastError := if ok then NoError else userDb.lastError;
        if ok {
          LinkedUserUnregistered(u, un, s, sn, name, chosen);
        }
      }
    }

    // -----------------------------------------------------------------------------------------
    // Choosing defaults
    // -----------------------------------------------------------------------------------------

    /** setInterfaceDefault: at user scope the default may be an interface at system scope. `asked` are the
        user's tables once the databases needed were open. */
    method SetInterfaceDefault(d: Descriptor, scope: Scope) returns (ok: bool, ghost id: Id, ghost asked: Tables)
      requires Valid()
      modifies `lastError, userDb, systemDb
      ensures Valid()
      ensures old(userDb.isOpen) ==> userDb.isOpen
      ensures old(systemDb.isOpen) ==> systemDb.isOpen
      ensures userDb.nextId == old(userDb.nextId) && systemDb.nextId == old(systemDb.nextId)
      ensures ok <==> lastError == NoError
      ensures Proceeded(old(Now()), Now())
      ensures OnlyDefaults(old(U()), asked, old(S()), old(S()))
      ensures old(systemDb.isOpen) || (scope == d.scope == UserScope) ==>
                asked == old(U()) && systemDb.isOpen == old(systemDb.isOpen)
      ensures ok && scope == UserScope ==>
                U() == WithDefault(asked, d.interfaceName, id) && S() == old(S())
                  && IsIdOf(TablesOf(asked, S(), d.scope), d, id)
      ensures ok && scope == SystemScope ==>
                U() == asked && S() == WithDefault(old(S()), d.interfaceName, id) && d.scope == SystemScope
                  && IsIdOf(old(S()), d, id)
      ensures !ok ==> U() == asked && S() == old(S())
      ensures scope == SystemScope && d.scope == UserScope ==> !ok && lastError == InvalidDescriptorScope
      ensures Faults() == old(Faults()) && old(Quiet()) && old(userDb.isOpen && systemDb.isOpen)
                && (scope == UserScope || d.scope == SystemScope) ==>
                (ok <==> HasRow(TablesOf(old(U()), old(S()), d.scope), d)) && (!ok ==> lastError == NotFound)
      decreases if systemDb.isOpen then 0 else 1, 2
    {
      hide Integrity, Linked, AllLocal, IsIdOf, HasRow, WithDefault;
      id, asked := userDb.nextId, U();
      if scope == UserScope {
        ok := OpenDb(UserScope);
        if !ok {
          return;
        }
        if d.scope == UserScope {
          ok, id := SetOwnDefault(d);
        } else {
          ok := OpenDb(SystemScope);
          asked := U();
          if !ok {
            return;
          }
          ok, id := SetExternalDefault(d);
        }
      } else if d.scope == UserScope {
        lastError := InvalidDescriptorScope;
        ok := false;
      } else {
        ok := OpenDb(SystemScope);
        asked := U();
        if !ok {
          return;
        }
        ok, id := SetSystemDefault(d);
      }
    }

    /** setInterfaceDefault by names: of a service's implementations of an interface, one with the greatest
        version becomes the default. `answers` are these implementations, of which the k-th is chosen. */
    method SetServiceDefault(serviceName: string, interfaceName: string, scope: Scope)
      returns (ok: bool, ghost asked: Tables, ghost answers: seq<Descriptor>, ghost rows: seq<ScopedRow>, ghost k: nat)
      requires Valid()
      modifies `lastError, userDb, systemDb
      ensures Valid()
      ensures ok <==> lastError == NoError
      ensures OnlyDefaults(old(U()), asked, old(S()), old(S())) && (old(systemDb.isOpen) ==> asked == old(U()))
      ensures ok ==>
                k < |answers| == |rows|
                && ScopedAnswers(asked, old(S()), Asked(scope, systemDb.isOpen),
                ServiceAndInterface(serviceName, interfaceName), answers, rows)
      ensures ok ==>
                forall j | 0 <= j < |answers| ::
                !LowerVersion(answers[k], answers[j]) && (j < k ==> LowerVersion(answers[j], answers[k]))
      ensures ok && scope == UserScope ==>
                U() == WithDefault(asked, answers[k].interfaceName, rows[k].1.1.id) && S() == old(S())
      ensures ok && scope == SystemScope ==>
                U() == asked && S() == WithDefault(old(S()), answers[k].interfaceName, rows[k].1.1.id)
      ensures !ok ==> U() == asked && S() == old(S())
      ensures Proceeded(old(Now()), Now())
      ensures Faults() == old(Faults()) && old(Quiet()) && old(userDb.isOpen && systemDb.isOpen) ==>
                var f, scopes := ServiceAndInterface(serviceName, interfaceName), Asked(scope, true);
                && (ok <==> answers != [])
                && if QueryStored(old(U()), old(S()), scopes, f)
                   then ScopedAnswers(old(U()), old(S()), scopes, f, answers, rows) && (!ok ==> lastError == NotFound)
                   else answers == []
    {
      hide Integrity, Linked, AllLocal, ScopedAnswers, WithDefault, LoadsAs, IsIdOf, HasRow, ServiceAndInterface,
        QueryStored;
      ok := false;
      k := 0;
      var filter := ServiceAndInterface(serviceName, interfaceName);
      var descriptors;
      descriptors, rows := GetInterfaces(filter, scope);
      asked, answers := U(), descriptors;
      ghost var s, un, sn, scopes := S(), userDb.nextId, systemDb.nextId, Asked(scope, systemDb.isOpen);
      if lastError != NoError {
        return;
      }
      AnswerCount(asked, s, scopes, filter, descriptors, rows);
      if |descriptors| == 0 {
        lastError := NotFound;
        return;
      }
      var l := LatestIndex(descriptors);
      k := l;
      AnswerLoads(asked, s, scopes, filter, descriptors, rows, k);
      AnswerScope(asked, s, scopes, filter, descriptors, rows, k);
      LoadsInScope(asked, s, rows[k].1.1.id, descriptors[l]);
      ghost var id, asked1;
      ok, id, asked1 := SetInterfaceDefault(descriptors[l], scope);
      if ok {
        AnswerRow(asked, un, s, sn, scopes, filter, descriptors, rows, k, id);
      }
    }

    method SetOwnDefault(d: Descriptor) returns (ok: bool, ghost id: Id)
      requires Valid() && userDb.isOpen
      modifies `lastError, userDb
      ensures Valid() && userDb.isOpen
      ensures userDb.nextId == old(userDb.nextId) && Proceeded(old(Now()), Now())
      ensures ok <==> lastError == NoError
      ensures ok ==> U() == WithDefault(old(U()), d.interfaceName, id) && IsIdOf(old(U()), d, id)
      ensures !ok ==> U() == old(U())
      ensures Faults() == old(Faults()) && old(Quiet()) ==>
                (ok <==> HasRow(old(U()), d)) && (!ok ==> lastError == NotFound)
    {
      hide Integrity, Linked, AllLocal, IsIdOf, HasRow, WithDefault;
      ghost var u := U();
      ok, id := userDb.SetInterfaceDefault(d, None);
      lastError := if ok then NoError else userDb.lastError;
      if ok {
        RowHere(u, userDb.nextId, d, id);
        LinkedSet(u, userDb.nextId, S(), systemDb.nextId, d.interfaceName, id);
      }
    }

    /** A default of the user's at system scope. */
    method SetExternalDefault(d: Descriptor) returns (ok: bool, ghost id: Id)
      requires Valid() && userDb.isOpen && systemDb.isOpen
      modifies `lastError, userDb, systemDb
      ensures Valid() && userDb.isOpen && systemDb.isOpen && S() == old(S())
      ensures userDb.nextId == old(userDb.nextId) && systemDb.nextId == old(systemDb.nextId)
      ensures Proceeded(old(Now()), Now())
      ensures ok <==> lastError == NoError
      ensures ok ==> U() == WithDefault(old(U()), d.interfaceName, id) && IsIdOf(S(), d, id)
      ensures !ok ==> U() == old(U())
      ensures Faults() == old(Faults()) && old(Quiet()) ==> (ok <==> HasRow(S(), d)) && (!ok ==> lastError == NotFound)
    {
      hide Integrity, Linked, AllLocal, IsIdOf, HasRow, WithDefault;
      ghost var u := U();
      ok := false;
      id := userDb.nextId;
      var row := systemDb.GetInterfaceId(d);
      if systemDb.lastError != NoError {
        lastError := systemDb.lastError;
        return;
      }
      SystemRowId(u.defaults, userDb.nextId, S(), systemDb.nextId, d, row.value);
      ok, id := userDb.SetInterfaceDefault(d, row);
      lastError := if ok then NoError else userDb.lastError;
      if ok {
        LinkedSet(u, userDb.nextId, S(), systemDb.nextId, d.interfaceName, id);
      }
    }

    method SetSystemDefault(d: Descriptor) returns (ok: bool, ghost id: Id)
      requires Valid() && systemDb.isOpen
      modifies `lastError, systemDb
      ensures Valid() && systemDb.isOpen
      ensures systemDb.nextId == old(systemDb.nextId) && Proceeded(old(Now()), Now())
      ensures ok <==> lastError == NoError
      ensures ok ==> S() == WithDefault(old(S()), d.interfaceName, id) && IsIdOf(old(S()), d, id)
      ensures !ok ==> S() == old(S())
      ensures Faults() == old(Faults()) && old(Quiet()) ==>
                (ok <==> HasRow(old(S()), d)) && (!ok ==> lastError == NotFound)
    {
      hide Integrity, Linked, AllLocal, IsIdOf, HasRow, WithDefault;
      ghost var s := S();
      ok, id := systemDb.SetInterfaceDefault(d, None);
      lastError := if ok then NoError else systemDb.lastError;
      if ok {
        RowHere(s, systemDb.nextId, d, id);
        WithDefaultKeeps(s, systemDb.nextId, d.interfaceName, id);
        SetFrame(s, d.interfaceName, id);
      }
    }

    // -----------------------------------------------------------------------------------------
    // interfaceDefault
    // -----------------------------------------------------------------------------------------

    /** interfaceDefault: the user's default of a name, which may be an interface at system scope, or if there
        is none, the system's. A default that has become stale is replaced. */
    method InterfaceDefault(name: string, scope: Scope) returns (found: Option<Descriptor>)
      requires Valid()
      modifies `lastError, userDb, systemDb
      ensures Valid()
      ensures (old(userDb.isOpen) ==> userDb.isOpen) && (old(systemDb.isOpen) ==> systemDb.isOpen)
      ensures OnlyDefaults(old(U()), U(), old(S()), S())
      ensures Proceeded(old(Now()), Now())
      ensures found.Some? ==> InScope(U(), S(), found.value) && SameName(found.value.interfaceName, name)
      ensures found.Some? && scope == SystemScope ==> IsDefaultOf(U(), S(), S(), name, found.value)
      ensures found.Some? && scope == UserScope && Faults() == old(Faults()) && old(Quiet()) ==>
                NotStale(U(), S(), name)
      ensures found.Some? && scope == UserScope && Faults() == old(Faults()) && old(Quiet()) && old(systemDb.isOpen) ==>
                IsDefaultOf(U(), S(), if HasDefault(name, U().defaults) then U() else S(), name, found.value)
      ensures scope == UserScope && Faults() == old(Faults()) && old(Quiet()) && userDb.isOpen && systemDb.isOpen ==>
                && NotStale(U(), S(), name)
                && (found.Some? <==> Findable(old(U()), S(), name))
                && (found.None? ==> (lastError == NotFound <==> Missing(old(U()), S(), name)))
                && (found.None? ==> (lastError == NoError <==> LeadsOut(old(U()), S(), name, true)))
      ensures scope == SystemScope && Faults() == old(Faults()) && old(Quiet()) && systemDb.isOpen ==>
                && (found.Some? <==> OwnFound(S(), name))
                && (found.None? ==> (lastError == NotFound <==> !HasDefault(name, S().defaults)))
      ensures found.Some? ==>
                lastError == if KeepsError(old(U()), name, scope, old(userDb.isOpen), old(systemDb.isOpen))
                  then old(lastError) else NoError
      ensures found.Some? ==>
                (lastError == NoError <==>
                 old(lastError) == NoError
                   || !KeepsError(old(U()), name, scope, old(userDb.isOpen), old(systemDb.isOpen)))
      ensures found.None? && lastError == NoError ==> scope == UserScope && HasExternal(name, old(U()))
    {
      hide Integrity, Linked, AllLocal, InScope, NotStale, IsDefaultOf, HasDefault, HasExternal, Findable, Missing,
        LeadsOut, OwnFound;
      found := None;
      if scope == UserScope {
        var done;
        found, done := UserDefault(name);
        if done {
          return;
        }
      }
      NoExternal(U(), name);
      NoneOfUsers(U(), S(), name);
      found := SystemDefault(name, scope);
      Settled(U(), S(), name);
      if found.Some? {
        DefaultInScope(U(), S(), S(), name, found.value);
      }
    }

    /** The search at user scope. It goes on at system scope, and is not done, if the user has no default. */
    method UserDefault(name: string) returns (found: Option<Descriptor>, done: bool)
      requires Valid()
      modifies `lastError, userDb, systemDb
      ensures Valid() && Proceeded(old(Now()), Now())
      ensures (old(userDb.isOpen) ==> userDb.isOpen) && (old(systemDb.isOpen) ==> systemDb.isOpen)
      ensures OnlyDefaults(old(U()), U(), old(S()), S())
      ensures !done ==>
                && found.None? && userDb.isOpen && userDb.lastError == NotFound
                  && systemDb.isOpen == old(systemDb.isOpen)
                && U() == old(U()) && !HasDefault(name, U().defaults)
                && lastError == if old(userDb.isOpen) then old(lastError) else NoError
      ensures found.Some? ==>
                && InScope(U(), S(), found.value) && SameName(found.value.interfaceName, name)
                  && HasDefault(name, old(U()).defaults)
                && lastError == if !HasExternal(name, old(U())) && old(userDb.isOpen) then old(lastError) else NoError
      ensures found.Some? && Faults() == old(Faults()) && old(Quiet()) ==>
                && NotStale(U(), S(), name)
                && (old(systemDb.isOpen) ==>
                  HasDefault(name, U().defaults) && IsDefaultOf(U(), S(), U(), name, found.value))
      ensures done && Faults() == old(Faults()) && old(Quiet()) && userDb.isOpen && systemDb.isOpen ==>
                && NotStale(U(), S(), name)
                && (found.Some? <==> Findable(old(U()), S(), name))
                && (found.None? ==> (lastError == NotFound <==> Missing(old(U()), S(), name)))
                && (found.None? ==> (lastError == NoError <==> LeadsOut(old(U()), S(), name, true)))
      ensures done && found.None? && lastError == NoError ==> HasExternal(name, old(U()))
    {
      hide Integrity, Linked, AllLocal, InScope, NotStale, IsDefaultOf, HasDefault, DefaultReadable, DefaultLoads,
        DefaultIs, HasExternal, Findable, Missing, LeadsOut, ExternalFound;
      found, done := None, true;
      var ok := OpenDb(UserScope);
      if !ok {
        return;
      }
      ghost var u0, un := U(), userDb.nextId;
      var own, external := userDb.InterfaceDefault(name);
      if userDb.lastError == NoError {
        OwnRead(u0, un, name, own.value);
        OwnDefault(u0, un, S(), name, own.value);
        found := Some(own.value.(scope := UserScope));
      } else if userDb.lastError == ExternalIfaceIDFound {
        ExternalNamed(u0, name, external.value);
        OutLed(u0, un, S(), name, external.value);
        MissingOut(u0, S(), name);
        found := ExternalDefault(name, external.value);
      } else if userDb.lastError == NotFound {
        done := false;
      } else {
        lastError := userDb.lastError;
        if !DefaultReadable(u0, name) {
          OwnUnread(u0, un, name);
          UnreadNotStale(u0, un, S(), name);
        }
      }
    }

    /** The user's default is an identifier of the system's database. */
    method ExternalDefault(name: string, id: Id) returns (found: Option<Descriptor>)
      requires Valid() && userDb.isOpen && DefaultIs(U(), name, id) && id !in InterfaceIds(U().interfaces)
      modifies `lastError, userDb, systemDb
      ensures Valid()
      ensures (old(userDb.isOpen) ==> userDb.isOpen) && (old(systemDb.isOpen) ==> systemDb.isOpen)
      ensures OnlyDefaults(old(U()), U(), old(S()), S())
      ensures Proceeded(old(Now()), Now())
      ensures found.Some? ==> InScope(U(), S(), found.value) && SameName(found.value.interfaceName, name)
      ensures found.Some? ==> lastError == NoError
      ensures found.Some? && Faults() == old(Faults()) && old(Quiet()) ==> NotStale(U(), S(), name)
      ensures found.Some? && Faults() == old(Faults()) && old(Quiet()) && old(systemDb.isOpen) ==>
                HasDefault(name, U().defaults) && IsDefaultOf(U(), S(), U(), name, found.value)
      ensures Faults() == old(Faults()) && old(Quiet()) && systemDb.isOpen ==>
                && NotStale(U(), S(), name)
                && (found.Some? <==> ExternalFound(old(U()), S(), name, id))
                && (found.None? ==> lastError == if id in InterfaceIds(S().interfaces) then NoError else NotFound)
    {
      hide Integrity, Linked, AllLocal, InScope, NotStale, IsDefaultOf, Implemented, HasDefault, DefaultIs, SettledBut,
        Cleaned, Reset, GoodReset, Exists, LoadsAs, IdLoads, Joined, Loaded, Readable, HasProperties;
      ghost var u0, s0, un, sn := U(), S(), userDb.nextId, systemDb.nextId;
      LinkedName(u0, un, s0, sn, name, id);
      found := None;
      var ok := OpenDb(SystemScope);
      if !ok {
        lastError := NotFound;
        return;
      }
      ghost var u1 := U();
      DefaultsAside(u0, u1);
      SameBoth(u0, u1, s0);
      var loaded := SystemRow(id);
      if systemDb.lastError == NoError {
        lastError := NoError;
        found := Some(loaded.value.(scope := SystemScope));
        ExternalRead(u0, un, s0, sn, u1, name, id, loaded.value);
      } else if systemDb.lastError == NotFound {
        ghost var choice;
        found, choice := ResetDefault(id, name);
        lastError := if found.Some? then NoError else NotFound;
        StaleReset(u0, un, u1, s0, name, id, choice);
        ReadableAside(u0, u1, s0);
        SameBoth(u1, U(), s0);
        if found.Some? && U() == Reset(u1, id, choice) {
          ResetChosen(u1, s0, name, id, choice, found.value);
        }
      } else {
        lastError := NoError;
        OutNotStale(u0, u1, s0, name, id);
      }
    }

    method SystemRow(id: Id) returns (loaded: Option<Descriptor>)
      requires Valid() && systemDb.isOpen
      modifies systemDb
      ensures Valid() && systemDb.isOpen && S() == old(S()) && systemDb.nextId == old(systemDb.nextId)
      ensures Proceeded(old(Now()), Now())
      ensures systemDb.lastError == NoError <==> loaded.Some?
      ensures systemDb.lastError == NotFound ==> id !in InterfaceIds(S().interfaces)
      ensures loaded.Some? ==> IdLoads(S(), id, loaded.value) && id in InterfaceIds(S().interfaces)
      ensures Faults() == old(Faults()) ==> (systemDb.lastError == NotFound <==> id !in InterfaceIds(S().interfaces))
      ensures Faults() == old(Faults()) && id in InterfaceIds(S().interfaces) ==>
                (loaded.Some? <==> HasProperties(S(), id))
    {
      hide Integrity, Linked, AllLocal, IdLoads, HasProperties;
      LoadedId(S(), id);
      loaded := systemDb.GetInterface(id);
    }

    /** The system's default of a name. */
    method SystemDefault(name: string, scope: Scope) returns (found: Option<Descriptor>)
      requires Valid() && (scope == UserScope ==> userDb.isOpen && userDb.lastError == NotFound)
      modifies `lastError, userDb, systemDb
      ensures Valid()
      ensures (old(userDb.isOpen) ==> userDb.isOpen) && (old(systemDb.isOpen) ==> systemDb.isOpen)
      ensures OnlyDefaults(old(U()), U(), old(S()), S())
      ensures Proceeded(old(Now()), Now())
      ensures old(systemDb.isOpen) ==> U() == old(U())
      ensures found.None? && !systemDb.isOpen && scope == UserScope ==> lastError == NotFound
      ensures found.Some? ==> systemDb.isOpen && lastError == if old(systemDb.isOpen) then old(lastError) else NoError
      ensures found.None? ==> lastError != NoError
      ensures found.Some? ==> IsDefaultOf(U(), S(), S(), name, found.value) && SameName(found.value.interfaceName, name)
      ensures systemDb.isOpen && !old(systemDb.isOpen) && old(userDb.isOpen) && Faults() == old(Faults())
                && old(Quiet()) ==>
                SettledBut(U(), S(), [])
      ensures Faults() == old(Faults()) && old(Quiet()) && systemDb.isOpen ==>
                && (found.Some? <==> OwnFound(S(), name))
                && (found.None? ==> (lastError == NotFound <==> !HasDefault(name, S().defaults)))
    {
      hide Integrity, Linked, AllLocal, IsDefaultOf, HasDefault, DefaultIs, SettledBut, Cleaned, DefaultReadable,
        DefaultLoads, OwnFound, Findable, Missing, LeadsOut;
      found := None;
      var ok := OpenDb(SystemScope);
      if !ok {
        lastError := if scope == SystemScope then systemDb.lastError else userDb.lastError;
        return;
      }
      var own, external := systemDb.InterfaceDefault(name);
      NoOwn(S(), name);
      if systemDb.lastError == NoError {
        OwnRead(S(), systemDb.nextId, name, own.value);
        SystemOwn(U(), S(), systemDb.nextId, name, own.value);
        found := Some(own.value.(scope := SystemScope));
      } else {
        lastError := systemDb.lastError;
        if external.Some? {
          NotExternal(S(), name, external.value);
        }
        if !DefaultReadable(S(), name) {
          OwnUnread(S(), systemDb.nextId, name);
        }
      }
    }
  }

  /** When a default that is found leaves the manager's last error as it was: every database it was looked for in
      was open already, and the user's default of the name is not an external one. */
  ghost predicate KeepsError(u: Tables, name: string, scope: Scope, userOpen: bool, systemOpen: bool) {
    match scope
    case SystemScope => systemOpen
    case UserScope => !HasExternal(name, u) && userOpen && (HasDefault(name, u.defaults) || systemOpen)
  }

  /** Asking for an interface that is not there and then for one that is: the second is found, with the error of
      the first. */
  method StaleError(m: DatabaseManager, missing: string, name: string) returns (found: Option<Descriptor>)
    requires m.Valid() && m.Quiet() && m.systemDb.isOpen
    requires !HasDefault(missing, m.S().defaults) && OwnFound(m.S(), name)
    modifies m`lastError, m.userDb, m.systemDb
    ensures m.Faults() == old(m.Faults()) ==> found.Some? && m.lastError == NotFound
  {
    hide Integrity, Linked, AllLocal, InScope, NotStale, IsDefaultOf, HasDefault, HasExternal, OwnFound, Findable;
    NoOwn(m.S(), missing);
    var none := m.InterfaceDefault(missing, SystemScope);
    found := m.InterfaceDefault(name, SystemScope);
  }

  /** Tables of which this can be said. */
  lemma {:induction false} StaleErrorTables()
    ensures var s := StaleTables();
      && Integrity(s, Id(1, 2)) && AllLocal(s)
      && !HasDefault("g", s.defaults) && OwnFound(s, "f") && KeepsError(s, "f", SystemScope, false, true)
  {
    StaleIntegrity();
    hide Integrity;
    var s := StaleTables();
    assert |"f"| == |"g"| == 1 && Lower("f")[0] == 'f' && Lower("g")[0] == 'g';
    assert InterfaceRow(Id(1, 1), Id(1, 0), "f", 1, 0) in s.interfaces && DefaultRow("f", Id(1, 1)) in s.defaults;
    assert Property(Id(1, 1), DESCRIPTION_KEY, "") in s.interfaceProps;
  }

  /** One service with one interface. */
  function StaleTables(): Tables {
    Tables({ServiceRow(Id(1, 0), "s", "p")}, {InterfaceRow(Id(1, 1), Id(1, 0), "f", 1, 0)},
           {Property(Id(1, 0), DESCRIPTION_KEY, "")}, {Property(Id(1, 1), DESCRIPTION_KEY, "")},
           {DefaultRow("f", Id(1, 1))})
  }

  lemma {:induction false} StaleIntegrity()
    ensures Integrity(StaleTables(), Id(1, 2))
  {
    hide Lower;
    var s := StaleTables();
    assert ServiceRow(Id(1, 0), "s", "p") in s.services;
    assert Property(Id(1, 0), DESCRIPTION_KEY, "") in s.serviceProps;
    assert InterfaceRow(Id(1, 1), Id(1, 0), "f", 1, 0) in s.interfaces;
  }

  /** The scopes of a query. */
  function Asked(scope: Scope, systemToo: bool): set<Scope> {
    if scope == SystemScope then {SystemScope} else if systemToo then {UserScope, SystemScope} else {UserScope}
  }

  lemma {:induction false} SameBoth(u0: Tables, u: Tables, s: Tables)
    requires u == u0.(defaults := u.defaults)
    ensures Both(u, s) == Both(u0, s) && u.interfaces == u0.interfaces
  {
  }

  lemma {:induction false} LinkedLater(defaults: set<DefaultRow>, un: Id, interfaces: set<InterfaceRow>, sn: Id,
      later: Id)
    requires Linked(defaults, un, interfaces, sn) && later.origin == un.origin
    ensures Linked(defaults, later, interfaces, sn)
  {
    hide LinkOk;
  }

  /** A filter for a service's implementations of an interface. */
  function ServiceAndInterface(serviceName: string, interfaceName: string): Filter {
    NameFilter(interfaceName).(serviceName := serviceName)
  }

  lemma {:induction false} AnswerScope(u: Tables, s: Tables, scopes: set<Scope>, f: Filter, result: seq<Descriptor>,
      rows: seq<ScopedRow>, k: nat)
    requires ScopedAnswers(u, s, scopes, f, result, rows) && k < |result|
    ensures result[k].scope == rows[k].0 && rows[k].0 in scopes
  {
    hide Joined, Loaded, Matches;
    assert IsAnswer(u, s, f, result[k], rows[k]);
  }

  lemma {:induction false} ResetNone(u: Tables, id: Id)
    ensures Reset(u, id, None) == WithoutDefaultsTo(u, id)
  {
  }

  lemma {:induction false} NoneGood(u0: Tables, u: Tables, un: Id, s: Tables, sn: Id, name: string,
      result: seq<Descriptor>, rows: seq<ScopedRow>)
    requires Integrity(u, un) && Integrity(s, sn) && name != "" && u == u0.(defaults := u.defaults)
    requires ScopedAnswers(u, s, {UserScope, SystemScope}, NameFilter(name), result, rows) && result == []
    ensures GoodReset(u0, s, name, None)
  {
    hide Integrity, ScopedAnswers, NameFilter, Lower;
    forall j | j in Both(u, s)
      ensures !SameName(j.name, name)
    {
      if SameName(j.name, name) {
        var k := AnswerFor(u, un, s, sn, name, result, rows, j);
      }
    }
  }

  lemma {:induction false} ResetSome(u0: Tables, u1: Tables, s: Tables, id: Id, name: string, chosen: string, cid: Id)
    requires u1 == u0.(defaults := u1.defaults)
    ensures u1 == WithoutDefaultsTo(u0, id) ==>
              Reset(u0, id, Some(DefaultRow(chosen, cid))) == WithDefault(u1, chosen, cid)
    ensures SameName(chosen, name) && Best(cid, Lower(name), Both(u1, s)) && BeatsUser(u1, s, name, cid)
              && Readable(u0, s, name) ==>
              GoodReset(u0, s, name, Some(DefaultRow(chosen, cid)))
  {
    hide WithDefault, WithoutDefaultsTo, Best, Lower;
    assert Both(u1, s) == Both(u0, s);
  }

  /** The row of a descriptor in a database has an identifier of that database. */
  lemma {:induction false} RowHere(t: Tables, next: Id, d: Descriptor, id: Id)
    requires Integrity(t, next) && IsIdOf(t, d, id)
    ensures ImplementedBy(d.interfaceName, id, t.interfaces) && id.origin == next.origin
  {
    RowImplements(t, d, id);
    hide OwnersOk, Described, ServicesOk, DefaultsOk, SameName, SameInterface;
    var i, r :| IsRowOf(t, d, i, r) && i.id == id;
    assert i in t.interfaces;
  }

  lemma {:induction false} SystemRowId(defaults: set<DefaultRow>, un: Id, s: Tables, sn: Id, d: Descriptor, id: Id)
    requires Linked(defaults, un, s.interfaces, sn) && Integrity(s, sn) && IsIdOf(s, d, id)
    ensures ImplementedBy(d.interfaceName, id, s.interfaces) && id.origin != un.origin
  {
    RowHere(s, sn, d, id);
    hide Integrity, LinkOk, IsIdOf;
  }

  /** In each of the scopes, every interface that a query selects has stored a property. */
  ghost predicate QueryStored(u: Tables, s: Tables, scopes: set<Scope>, f: Filter) {
    forall scope | scope in scopes :: var t := TablesOf(u, s, scope); AllStored(t, Selected(t, f))
  }

  /** For a name in both databases that is `Readable`. */
  lemma {:induction false} NameReadable(u0: Tables, u: Tables, un: Id, s: Tables, sn: Id, name: string)
    requires Integrity(u, un) && Integrity(s, sn) && name != "" && u == u0.(defaults := u.defaults)
    ensures QueryStored(u, s, {UserScope, SystemScope}, NameFilter(name)) <==> Readable(u0, s, name)
  {
    ReadableAside(u0, u, s);
    NamedSelected(u, un, name);
    NamedSelected(s, sn, name);
    hide Integrity, AllStored, Selected, NamedStored;
    assert QueryStored(u, s, {UserScope, SystemScope}, NameFilter(name)) <==>
      AllStored(u, Selected(u, NameFilter(name))) && AllStored(s, Selected(s, NameFilter(name)));
  }

  lemma {:induction false} NoneUnreadable(u: Tables, s: Tables, name: string)
    ensures !Readable(u, s, name) ==> GoodReset(u, s, name, None)
  {
  }

  lemma {:induction false} ScopedAside(u0: Tables, u: Tables, s: Tables, scopes: set<Scope>, f: Filter,
      result: seq<Descriptor>, rows: seq<ScopedRow>)
    requires u == u0.(defaults := u.defaults) && ScopedAnswers(u0, s, scopes, f, result, rows)
    ensures ScopedAnswers(u, s, scopes, f, result, rows)
  {
    DefaultsAside(u0, u);
    hide Joined, Loaded, Matches, Populated, IsIdOf, HasRow;
    forall k | 0 <= k < |rows|
      ensures IsAnswer(u, s, f, result[k], rows[k])
    {
      assert IsAnswer(u0, s, f, result[k], rows[k]);
    }
  }

  lemma {:induction false} AnswerCount(u: Tables, s: Tables, scopes: set<Scope>, f: Filter, result: seq<Descriptor>,
      rows: seq<ScopedRow>)
    requires ScopedAnswers(u, s, scopes, f, result, rows)
    ensures |rows| == |result|
  {
  }

  /** The row found for a descriptor that was an answer is the answer's. */
  lemma {:induction false} AnswerRow(u: Tables, un: Id, s: Tables, sn: Id, scopes: set<Scope>, f: Filter,
      result: seq<Descriptor>, rows: seq<ScopedRow>, k: nat, id: Id)
    requires Integrity(u, un) && Integrity(s, sn)
    requires ScopedAnswers(u, s, scopes, f, result, rows) && k < |result|
               && IsIdOf(TablesOf(u, s, result[k].scope), result[k], id)
    ensures id == rows[k].1.1.id
  {
    hide Integrity, Joined, Matches, IsIdOf;
    assert IsAnswer(u, s, f, result[k], rows[k]);
    var x := rows[k];
    ReadRow(TablesOf(u, s, x.0), if x.0 == UserScope then un else sn, x.1, x.0, id);
  }

  lemma {:induction false} SameInterfaces(u0: Tables, u: Tables)
    requires u == u0.(defaults := u.defaults)
    ensures u.interfaces == u0.interfaces
  {
  }

  /** What the query for external defaults gives when nothing fails. */
  lemma {:induction false} AllListed(u: Tables, info: seq<DefaultRow>)
    requires forall k | 0 <= k < |info| :: info[k] in ExternalDefaults(u)
    requires forall d | d in ExternalDefaults(u) :: d in info
    requires forall j, k | 0 <= j < k < |info| :: info[j] != info[k]
    ensures ListsExternals(u, info)
  {
  }

  lemma {:induction false} ListedExternal(u: Tables, un: Id, s: Tables, sn: Id, info: seq<DefaultRow>, k: nat)
    requires ListsExternals(u, info) && k < |info| && Integrity(u, un) && Linked(u.defaults, un, s.interfaces, sn)
    ensures info[k].interfaceId !in InterfaceIds(u.interfaces) && info[k].interfaceName != ""
  {
    ExternalOrigin(u, un, info[k]);
    hide Integrity;
    assert info[k] in ExternalDefaults(u);
    assert LinkOk(info[k], s.interfaces, sn);
  }

  /** Nothing but the user's defaults has changed. */
  ghost predicate OnlyDefaults(u0: Tables, u: Tables, s0: Tables, s: Tables) {
    s == s0 && u == u0.(defaults := u.defaults)
  }
}
