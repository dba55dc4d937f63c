/** Two databases together, as src/serviceframework/databasemanager.cpp uses them: a user's, whose defaults may
  be identifiers of the system's, and the system's. */
module ServiceScopes {
  import opened Text
  import opened Version
  import opened Descriptor
  import opened ServiceFilter
  import opened ServiceTables
  import opened ServiceUpdates
  import opened ServiceStorage

  /** A row of one of the two databases. */
  type ScopedRow = (Scope, JoinedRow)

  function TablesOf(u: Tables, s: Tables, scope: Scope): Tables {
    if scope == UserScope then u else s
  }

  /** The descriptor of a row, marked with its scope. */
  ghost function LoadedIn(u: Tables, s: Tables, x: ScopedRow): Descriptor {
    Loaded(TablesOf(u, s, x.0), x.1).(scope := x.0)
  }

  /** All interfaces that a name or a version may be looked for in. */
  function Both(u: Tables, s: Tables): set<InterfaceRow> {
    u.interfaces + s.interfaces
  }

  /** A descriptor of an interface that is registered in the scope that the descriptor names. */
  ghost predicate InScope(u: Tables, s: Tables, d: Descriptor) {
    exists x: JoinedRow :: x in Joined(TablesOf(u, s, d.scope)) && d == LoadedIn(u, s, (d.scope, x))
  }

  /** The answer to a query in some scopes: the descriptors of exactly the interfaces that the filter matches,
      once each, marked with their scopes, the user's first. */
  ghost predicate ScopedAnswers(u: Tables, s: Tables, scopes: set<Scope>, f: Filter, result: seq<Descriptor>,
      rows: seq<ScopedRow>) {
    && |rows| == |result|
    && (forall k | 0 <= k < |rows| :: rows[k].0 in scopes && IsAnswer(u, s, f, result[k], rows[k]))
    && (forall j, k | 0 <= j < k < |rows| :: rows[j] != rows[k] && (rows[k].0 == UserScope ==> rows[j].0 == UserScope))
    && (forall x: ScopedRow | x.0 in scopes && Wanted(u, s, f, x) :: x in rows)
  }

  ghost predicate Wanted(u: Tables, s: Tables, f: Filter, x: ScopedRow) {
    x.1 in Joined(TablesOf(u, s, x.0)) && Matches(f, LoadedIn(u, s, x))
  }

  ghost predicate IsAnswer(u: Tables, s: Tables, f: Filter, d: Descriptor, x: ScopedRow) {
    x.1 in Joined(TablesOf(u, s, x.0)) && d == LoadedIn(u, s, x) && Matches(f, d)
  }

  /** Descriptors marked with a scope. */
  function Marked(ds: seq<Descriptor>, scope: Scope): (r: seq<Descriptor>)
    ensures |r| == |ds| && forall k | 0 <= k < |ds| :: r[k] == ds[k].(scope := scope)
  {
    seq(|ds|, k requires 0 <= k < |ds| => ds[k].(scope := scope))
  }

  ghost function MarkedRows(rows: seq<JoinedRow>, scope: Scope): (r: seq<ScopedRow>)
    ensures |r| == |rows| && forall k | 0 <= k < |rows| :: r[k] == (scope, rows[k])
  {
    seq(|rows|, k requires 0 <= k < |rows| => (scope, rows[k]))
  }

  /** Such an answer holds exactly the descriptors that the filter asks for. */
  lemma {:induction false} ScopedExactly(u: Tables, s: Tables, scopes: set<Scope>, f: Filter, result: seq<Descriptor>,
      rows: seq<ScopedRow>)
    requires ScopedAnswers(u, s, scopes, f, result, rows)
    ensures forall x: ScopedRow | x.0 in scopes && x.1 in Joined(TablesOf(u, s, x.0)) :: var d := LoadedIn(u, s, x);
              d in result <==>
              && (f.serviceName == "" || SameName(d.serviceName, f.serviceName))
              && (f.interfaceName == "" || SameName(d.interfaceName, f.interfaceName))
              && (f.interfaceName == "" || f.majorVersion < 0 || f.minorVersion < 0
                  || if f.matchingRule == ExactVersionMatch
                     then d.major == f.majorVersion && d.minor == f.minorVersion
                     else !(d.major < f.majorVersion || (d.major == f.majorVersion && d.minor < f.minorVersion)))
              && (f.capMatchingRule == MatchMinimum ==>
                    forall c | c in f.capabilities ::
                      d.attributes.capabilities.Some? && c in d.attributes.capabilities.value)
              && (f.capMatchingRule == MatchLoadable && d.attributes.capabilities.Some? ==>
                    forall c | c in d.attributes.capabilities.value :: c in f.capabilities)
              && (forall key | key in f.customAttributes ::
                    key in d.customAttributes && d.customAttributes[key] == f.customAttributes[key])
  {
    hide Joined, LoadedIn, TablesOf, Matches, SameName;
    forall x: ScopedRow | x.0 in scopes && x.1 in Joined(TablesOf(u, s, x.0))
      ensures LoadedIn(u, s, x) in result <==> Matches(f, LoadedIn(u, s, x))
    {
      if Matches(f, LoadedIn(u, s, x)) {
        assert Wanted(u, s, f, x);
        var k :| 0 <= k < |rows| && rows[k] == x;
        assert IsAnswer(u, s, f, result[k], rows[k]);
      }
      if LoadedIn(u, s, x) in result {
        var k :| 0 <= k < |result| && result[k] == LoadedIn(u, s, x);
        assert IsAnswer(u, s, f, result[k], rows[k]);
      }
    }
    forall x: ScopedRow | x.0 in scopes && x.1 in Joined(TablesOf(u, s, x.0)) {
      FilterMeans(f, LoadedIn(u, s, x));
    }
  }

  lemma ScopesMarked(u: Tables, s: Tables)
    ensures forall x: ScopedRow :: LoadedIn(u, s, x).scope == x.0
  {
    hide Loaded;
  }

  /** A query's answer is followed by that of the other scope. */
  lemma {:induction false} MoreAnswers(u: Tables, s: Tables, scopes: set<Scope>, f: Filter, result: seq<Descriptor>,
      rows: seq<ScopedRow>, scope: Scope, more: seq<Descriptor>, moreRows: seq<JoinedRow>)
    requires ScopedAnswers(u, s, scopes, f, result, rows) && scope !in scopes
               && Answers(TablesOf(u, s, scope), f, more, moreRows)
    requires scope == UserScope ==> scopes == {}
    ensures ScopedAnswers(u, s, scopes + {scope}, f, result + Marked(more, scope), rows + MarkedRows(moreRows, scope))
  {
    AnswersMarked(u, s, f, scope, more, moreRows);
    hide ScopedAnswers, Answers, Marked, MarkedRows;
    AnswersTogether(u, s, scopes, f, result, rows, scope, Marked(more, scope), MarkedRows(moreRows, scope));
  }

  lemma {:induction false} AnswersTogether(u: Tables, s: Tables, scopes: set<Scope>, f: Filter,
      result: seq<Descriptor>, rows: seq<ScopedRow>, scope: Scope, more: seq<Descriptor>, moreRows: seq<ScopedRow>)
    requires ScopedAnswers(u, s, scopes, f, result, rows) && scope !in scopes
               && ScopedAnswers(u, s, {scope}, f, more, moreRows)
    requires scope == UserScope ==> scopes == {}
    ensures ScopedAnswers(u, s, scopes + {scope}, f, result + more, rows + moreRows)
  {
    hide IsAnswer, Wanted;
    var all, allRows := result + more, rows + moreRows;
    forall k | 0 <= k < |allRows|
      ensures allRows[k].0 in scopes + {scope} && IsAnswer(u, s, f, all[k], allRows[k])
    {
      if k < |rows| {
        assert allRows[k] == rows[k] && all[k] == result[k];
      } else {
        assert allRows[k] == moreRows[k - |rows|] && all[k] == more[k - |rows|];
      }
    }
    forall x: ScopedRow | x.0 in scopes + {scope} && Wanted(u, s, f, x)
      ensures x in allRows
    {
      assert x in if x.0 == scope then moreRows else rows;
    }
  }

  lemma {:induction false} AnswersMarked(u: Tables, s: Tables, f: Filter, scope: Scope, more: seq<Descriptor>,
      moreRows: seq<JoinedRow>)
    requires Answers(TablesOf(u, s, scope), f, more, moreRows)
    ensures ScopedAnswers(u, s, {scope}, f, Marked(more, scope), MarkedRows(moreRows, scope))
  {
    hide Joined, Loaded, Matches, TablesOf;
    var xs := MarkedRows(moreRows, scope);
    forall k | 0 <= k < |moreRows|
      ensures IsAnswer(u, s, f, Marked(more, scope)[k], xs[k])
    {
      ScopeIgnored(f, more[k], scope);
    }
    forall x: ScopedRow | x.0 == scope && Wanted(u, s, f, x)
      ensures x in xs
    {
      ScopeIgnored(f, Loaded(TablesOf(u, s, scope), x.1), scope);
      var k :| 0 <= k < |moreRows| && moreRows[k] == x.1;
      assert xs[k] == x;
    }
  }

  /** A filter does not look at scopes. */
  lemma {:induction false} ScopeIgnored(f: Filter, d: Descriptor, scope: Scope)
    ensures Matches(f, d.(scope := scope)) <==> Matches(f, d)
  {
  }

  lemma {:induction false} NoAnswers(u: Tables, s: Tables, f: Filter)
    ensures ScopedAnswers(u, s, {}, f, [], [])
  {
  }

  /** A filter for a name. */
  function NameFilter(name: string): Filter {
    Filter(name, "", -1, -1, MinimumVersionMatch, map[], [], MatchMinimum)
  }

  lemma {:induction false} NameFilterMatches(name: string, d: Descriptor)
    requires name != ""
    ensures Matches(NameFilter(name), d) <==> SameName(d.interfaceName, name)
  {
    hide SameName, CapabilitiesOf;
    assert AsSet([]) == {};
  }

  lemma {:induction false} LoadedFacts(t: Tables, x: JoinedRow)
    requires x in Joined(t)
    ensures x.1 in t.interfaces && x.0 in t.services && x.0.id == x.1.serviceId
    ensures var d := Loaded(t, x);
      d.interfaceName == x.1.name && d.serviceName == x.0.name && d.major == x.1.major && d.minor == x.1.minor
    ensures forall scope :: IsRowOf(t, Loaded(t, x).(scope := scope), x.1, x.0)
  {
    hide ValueOf, CustomsOf, LocationOf, TypeOf;
  }

  /** The row of a descriptor that was read is the one it was read from. */
  lemma {:induction false} ReadRow(t: Tables, next: Id, x: JoinedRow, scope: Scope, id: Id)
    requires Integrity(t, next) && x in Joined(t) && IsIdOf(t, Loaded(t, x).(scope := scope), id)
    ensures id == x.1.id
  {
    hide Integrity, Joined, Loaded, IsRowOf;
    LoadedFacts(t, x);
    var i, r :| IsRowOf(t, Loaded(t, x).(scope := scope), i, r) && i.id == id;
    RowUnique(t, next, Loaded(t, x).(scope := scope), i, r, x.1, x.0);
  }

  /** Of the answers for a name, one with the greatest version is the newest implementation in either
      database. */
  lemma {:induction false} NewestAnswer(u: Tables, un: Id, s: Tables, sn: Id, name: string, result: seq<Descriptor>,
      rows: seq<ScopedRow>, l: nat)
    requires Integrity(u, un) && Integrity(s, sn) && name != ""
    requires ScopedAnswers(u, s, {UserScope, SystemScope}, NameFilter(name), result, rows) && l < |result|
    requires forall k | 0 <= k < |result| :: !LowerVersion(result[l], result[k])
    requires forall k | 0 <= k < l :: LowerVersion(result[k], result[l])
    ensures SameName(result[l].interfaceName, name) && Best(rows[l].1.1.id, Lower(name), Both(u, s))
              && BeatsUser(u, s, name, rows[l].1.1.id)
  {
    hide Integrity, Joined, Loaded, NameFilter, Matches, Lower;
    var x := rows[l];
    var t := TablesOf(u, s, x.0);
    LoadedFacts(t, x.1);
    NameFilterMatches(name, result[l]);
    var i := x.1.1;
    forall j | j in Both(u, s) && Lower(j.name) == Lower(name)
      ensures !BelowRow(i, j)
    {
      var k := AnswerFor(u, un, s, sn, name, result, rows, j);
      assert !LowerVersion(result[l], result[k]);
    }
    if x.0 == UserScope {
      assert i in u.interfaces;
    } else {
      forall i', j | i' in s.interfaces && i'.id == i.id && j in u.interfaces && SameName(j.name, name)
        ensures BelowRow(j, i')
      {
        SameRow(s, sn, i, i');
        var k := AnswerFor(u, un, s, sn, name, result, rows, j);
        assert rows[k].0 == UserScope;
        assert LowerVersion(result[k], result[l]);
      }
    }
  }

  lemma {:induction false} SameRow(t: Tables, next: Id, i: InterfaceRow, j: InterfaceRow)
    requires Integrity(t, next) && i in t.interfaces && j in t.interfaces && i.id == j.id
    ensures i == j
  {
    hide OwnersOk, Described, ServicesOk, DefaultsOk, SameName, SameInterface;
  }

  /** A row of the user's own is preferred to a system one of the same version. */
  ghost predicate BeatsUser(u: Tables, s: Tables, name: string, id: Id) {
    id in InterfaceIds(u.interfaces) || AboveUser(u, s, name, id)
  }

  /** Newer than all of the user's own. */
  ghost predicate AboveUser(u: Tables, s: Tables, name: string, id: Id) {
    forall i, j | i in s.interfaces && i.id == id && j in u.interfaces && SameName(j.name, name) :: BelowRow(j, i)
  }

  lemma {:induction false} AnswerFor(u: Tables, un: Id, s: Tables, sn: Id, name: string, result: seq<Descriptor>,
      rows: seq<ScopedRow>, j: InterfaceRow)
    returns (k: nat)
    requires Integrity(u, un) && Integrity(s, sn) && name != ""
    requires ScopedAnswers(u, s, {UserScope, SystemScope}, NameFilter(name), result, rows)
    requires j in Both(u, s) && SameName(j.name, name)
    ensures k < |result| && k < |rows| && result[k].major == j.major && result[k].minor == j.minor
    ensures rows[k].0 == if j in u.interfaces then UserScope else SystemScope
  {
    hide Integrity, Joined, Loaded, NameFilter, Matches, Lower;
    var scope := if j in u.interfaces then UserScope else SystemScope;
    var t, next := TablesOf(u, s, scope), if scope == UserScope then un else sn;
    JoinedOnce(t, next, j);
    var r :| (r, j) in Joined(t);
    LoadedFacts(t, (r, j));
    NameFilterMatches(name, Loaded(t, (r, j)).(scope := scope));
    var x: ScopedRow := (scope, (r, j));
    assert Wanted(u, s, NameFilter(name), x);
    k :| 0 <= k < |rows| && rows[k] == (scope, (r, j));
  }

  /** A descriptor of the row with an identifier. */
  ghost predicate LoadsAs(u: Tables, s: Tables, id: Id, d: Descriptor) {
    exists x: ScopedRow :: x.1 in Joined(TablesOf(u, s, x.0)) && d == LoadedIn(u, s, x) && x.1.1.id == id
  }

  lemma {:induction false} LoadsInScope(u: Tables, s: Tables, id: Id, d: Descriptor)
    requires LoadsAs(u, s, id, d)
    ensures InScope(u, s, d) && HasRow(TablesOf(u, s, d.scope), d) && Exists(u, s, id)
    ensures ImplementedBy(d.interfaceName, id, Both(u, s))
  {
    hide Joined, Loaded, SameName;
    var x: ScopedRow :| x.1 in Joined(TablesOf(u, s, x.0)) && d == LoadedIn(u, s, x) && x.1.1.id == id;
    LoadedFacts(TablesOf(u, s, x.0), x.1);
  }

  lemma {:induction false} AnswerLoads(u: Tables, s: Tables, scopes: set<Scope>, f: Filter, result: seq<Descriptor>,
      rows: seq<ScopedRow>, k: nat)
    requires ScopedAnswers(u, s, scopes, f, result, rows) && k < |result|
    ensures LoadsAs(u, s, rows[k].1.1.id, result[k])
  {
    hide Joined, Loaded, Matches, TablesOf;
    assert IsAnswer(u, s, f, result[k], rows[k]);
  }

  /** Of the tables, defaults do not matter to what is read. */
  lemma {:induction false} DefaultsAside(u0: Tables, u: Tables)
    requires u == u0.(defaults := u.defaults)
    ensures Joined(u) == Joined(u0) && (Populated(u) <==> Populated(u0))
    ensures forall x :: Loaded(u, x) == Loaded(u0, x)
    ensures forall d, id :: IsIdOf(u, d, id) <==> IsIdOf(u0, d, id)
    ensures forall d :: HasRow(u, d) <==> HasRow(u0, d)
  {
    hide ValueOf, CustomsOf, LocationOf, TypeOf, SameName;
    assert forall d, i, r :: IsRowOf(u, d, i, r) <==> IsRowOf(u0, d, i, r);
    assert forall id :: HasProperties(u, id) <==> HasProperties(u0, id);
    hide IsRowOf, HasProperties;
  }

  lemma {:induction false} LoadsAside(u0: Tables, u: Tables, s: Tables, id: Id, d: Descriptor)
    requires u == u0.(defaults := u.defaults) && LoadsAs(u0, s, id, d)
    ensures LoadsAs(u, s, id, d)
  {
    DefaultsAside(u0, u);
    hide Joined, Loaded, Populated, IsIdOf, HasRow;
    var x: ScopedRow :| x.1 in Joined(TablesOf(u0, s, x.0)) && d == LoadedIn(u0, s, x) && x.1.1.id == id;
    assert x.1 in Joined(TablesOf(u, s, x.0)) && d == LoadedIn(u, s, x);
  }

  // ---------------------------------------------------------------------------------------------
  // The invariant between the two
  // ---------------------------------------------------------------------------------------------

  /** A default of the user's that is not the user's own is an identifier that the system's database has
      given out. As long as the row exists it implements the default's name, and it is the default of no
      other name. */
  ghost predicate Linked(defaults: set<DefaultRow>, un: Id, interfaces: set<InterfaceRow>, sn: Id) {
    && un.origin != sn.origin
    && (forall d | d in defaults && d.interfaceId.origin != un.origin :: LinkOk(d, interfaces, sn))
    && (forall d, e | d in defaults && e in defaults && d.interfaceId == e.interfaceId
      && d.interfaceId.origin != un.origin :: d == e)
    && (forall i | i in interfaces :: i.name != "")
  }

  ghost predicate LinkOk(d: DefaultRow, interfaces: set<InterfaceRow>, sn: Id) {
    && d.interfaceName != "" && Older(d.interfaceId, sn)
    && forall i | i in interfaces && i.id == d.interfaceId :: SameName(i.name, d.interfaceName)
  }

  /** Fewer external defaults are still linked. */
  lemma {:induction false} FewerLinks(defaults: set<DefaultRow>, more: set<DefaultRow>, un: Id,
      interfaces: set<InterfaceRow>, sn: Id)
    requires Linked(defaults, un, interfaces, sn)
    requires forall d | d in more && d.interfaceId.origin != un.origin :: d in defaults
    ensures Linked(more, un, interfaces, sn)
  {
    hide LinkOk;
  }

  /** The system's database may lose interfaces, and gain ones with new identifiers. */
  lemma {:induction false} LinksStay(defaults: set<DefaultRow>, un: Id, interfaces: set<InterfaceRow>, sn: Id,
      more: set<InterfaceRow>, later: Id)
    requires Linked(defaults, un, interfaces, sn) && later.origin == sn.origin && sn.number <= later.number
    requires forall i | i in more :: i in interfaces || (!Older(i.id, sn) && i.name != "")
    ensures Linked(defaults, un, more, later)
  {
    hide SameName;
  }

  /** Registering at user scope. */
  lemma {:induction false} LinkedUserRegistered(u: Tables, un: Id, s: Tables, sn: Id, service: Results, later: Id)
    requires Linked(u.defaults, un, s.interfaces, sn) && ServiceOk(service) && later.origin == un.origin
    ensures Linked(Registered(u, service, un).defaults, later, s.interfaces, sn)
  {
    RegisteredDefaultRows(u, service, un);
    hide Registered, NewDefaults, ServiceOk, LinkOk;
    FewerLinks(u.defaults, Registered(u, service, un).defaults, un, s.interfaces, sn);
  }

  lemma {:induction false} RegisteredDefaultRows(u: Tables, service: Results, un: Id)
    requires ServiceOk(service)
    ensures forall d | d in Registered(u, service, un).defaults && d.interfaceId.origin != un.origin :: d in u.defaults
  {
    hide SameDescriptor, NamedIn, SameName, MadeFor;
    forall d | d in NewDefaults(service.interfaces, service.latest, un, u.defaults, |service.latest|)
      ensures d.interfaceId.origin == un.origin
    {
      NewDefaultName(service.interfaces, service.latest, un, u.defaults, |service.latest|, d);
      OfThisDatabase(service, un, u.defaults, d);
    }
  }

  lemma {:induction false} OfThisDatabase(service: Results, un: Id, before: set<DefaultRow>, d: DefaultRow)
    requires ServiceOk(service)
    requires exists k ::
               0 <= k < |service.latest| && service.latest[k] in service.interfaces
               && MadeFor(service.interfaces, service.latest[k], un, before, d)
    ensures d.interfaceId.origin == un.origin
  {
    hide ServiceOk, HasDefault, IndexOf;
  }

  /** Unregistering at user scope. */
  lemma {:induction false} LinkedUserUnregistered(u: Tables, un: Id, s: Tables, sn: Id, name: string, chosen: Choice)
    requires Integrity(u, un) && GoodChoice(u, name, chosen) && Linked(u.defaults, un, s.interfaces, sn)
    ensures Linked(Unregistered(u, name, chosen).defaults, un, s.interfaces, sn)
  {
    hide LinkOk, ServicesOk, OwnersOk, Described, DefaultsOk, InterfacesOf, NamedServices, Lower, Reelected, Linked;
    var rest := WithoutService(u, name).interfaces;
    assert rest <= u.interfaces;
    ReelectedRows(u, name, chosen);
    forall e | e in Reelected(u, name, chosen)
      ensures e in u.defaults || e.interfaceId.origin == un.origin
    {
      var d :| d in u.defaults && Comes(e, d, InterfacesOf(u, NamedServices(u, name)), chosen);
      if e != d {
        assert Best(e.interfaceId, Lower(d.interfaceName), rest);
        var i :| i in rest && i.id == e.interfaceId;
        assert Older(i.id, un);
      }
    }
    FewerLinks(u.defaults, Reelected(u, name, chosen), un, s.interfaces, sn);
  }

  /** Registering at system scope. */
  lemma {:induction false} LinkedSystemRegistered(u: Tables, un: Id, s: Tables, sn: Id, service: Results, later: Id)
    requires Linked(u.defaults, un, s.interfaces, sn) && ServiceOk(service) && later.origin == sn.origin
               && sn.number <= later.number
    ensures Linked(u.defaults, un, Registered(s, service, sn).interfaces, later)
  {
    var more := Registered(s, service, sn).interfaces;
    assert more == s.interfaces + NewInterfaces(service.interfaces, sn, |service.interfaces|);
    hide Registered, Linked, NewInterfaces, SameDescriptor, SameName, NamedIn;
    forall i | i in more && i !in s.interfaces
      ensures !Older(i.id, sn) && i.name != ""
    {
      NewInterfaceRow(service.interfaces, sn, |service.interfaces|, i);
    }
    LinksStay(u.defaults, un, s.interfaces, sn, more, later);
  }

  /** Unregistering at system scope: the user's defaults that pointed into the service become stale. */
  lemma {:induction false} LinkedSystemUnregistered(u: Tables, un: Id, s: Tables, sn: Id, name: string, chosen: Choice)
    requires Linked(u.defaults, un, s.interfaces, sn)
    ensures Linked(u.defaults, un, Unregistered(s, name, chosen).interfaces, sn)
  {
    assert Unregistered(s, name, chosen).interfaces <= s.interfaces;
    hide Linked, Unregistered;
    LinksStay(u.defaults, un, s.interfaces, sn, Unregistered(s, name, chosen).interfaces, sn);
  }

  /** A default of the user's becomes a row of the user's own, or the row of a descriptor at system scope. */
  lemma {:induction false} LinkedSet(u: Tables, un: Id, s: Tables, sn: Id, name: string, id: Id)
    requires Linked(u.defaults, un, s.interfaces, sn) && Integrity(u, un) && Integrity(s, sn)
    requires id.origin == un.origin || ImplementedBy(name, id, s.interfaces)
    ensures Linked(WithDefault(u, name, id).defaults, un, s.interfaces, sn)
  {
    var defaults := WithDefault(u, name, id).defaults;
    SetRowOrigins(u, name, id);
    hide WithDefault;
    if id.origin == un.origin {
      hide LinkOk;
      FewerLinks(u.defaults, defaults, un, s.interfaces, sn);
    } else {
      NewLink(u, un, s, sn, name, id);
      SetNameOnce(u, un, s, sn, name, id);
    }
  }

  /** Defaults are removed. */
  lemma {:induction false} LinkedWithout(u: Tables, un: Id, s: Tables, sn: Id, id: Id)
    requires Linked(u.defaults, un, s.interfaces, sn)
    ensures Linked(WithoutDefaultsTo(u, id).defaults, un, s.interfaces, sn)
    ensures WithoutDefaultsTo(u, id) == u.(defaults := WithoutDefaultsTo(u, id).defaults)
  {
    hide LinkOk;
  }

  lemma {:induction false} SetRowOrigins(u: Tables, name: string, id: Id)
    ensures forall d | d in WithDefault(u, name, id).defaults ::
              d in u.defaults || (SameName(d.interfaceName, name) && d.interfaceId == id)
    ensures forall d, e | d in WithDefault(u, name, id).defaults && e in WithDefault(u, name, id).defaults
              && SameName(d.interfaceName, name) && !SameName(e.interfaceName, name) :: e in u.defaults
  {
    hide Lower;
  }

  lemma {:induction false} NewLink(u: Tables, un: Id, s: Tables, sn: Id, name: string, id: Id)
    requires Linked(u.defaults, un, s.interfaces, sn) && Integrity(s, sn) && ImplementedBy(name, id, s.interfaces)
    ensures forall d | d in WithDefault(u, name, id).defaults && d.interfaceId.origin != un.origin ::
              LinkOk(d, s.interfaces, sn)
  {
    hide WithDefault, Lower, OwnersOk, DefaultsOk, Described, ServicesOk;
    SetRowOrigins(u, name, id);
    var i :| i in s.interfaces && i.id == id && SameName(i.name, name);
    forall d | d in WithDefault(u, name, id).defaults && d.interfaceId.origin != un.origin
      ensures LinkOk(d, s.interfaces, sn)
    {
      if d !in u.defaults {
        SameLength(d.interfaceName, i.name);
        forall j | j in s.interfaces && j.id == id
          ensures SameName(j.name, d.interfaceName)
        {
          assert j == i;
        }
      }
    }
  }

  lemma {:induction false} SetNameOnce(u: Tables, un: Id, s: Tables, sn: Id, name: string, id: Id)
    requires Linked(u.defaults, un, s.interfaces, sn) && Integrity(u, un) && Integrity(s, sn)
               && ImplementedBy(name, id, s.interfaces)
    ensures var w := WithDefault(u, name, id).defaults;
      forall d, e | d in w && e in w && d.interfaceId == e.interfaceId && d.interfaceId.origin != un.origin :: d == e
  {
    SetRowOrigins(u, name, id);
    SetNames(u, un, name, id);
    hide WithDefault, Lower, OwnersOk, Described, ServicesOk, InterfacesOk;
    var w := WithDefault(u, name, id).defaults;
    var i :| i in s.interfaces && i.id == id && SameName(i.name, name);
    forall d, e | d in w && e in w && d.interfaceId == e.interfaceId && d.interfaceId.origin != un.origin
      ensures d == e
    {
      if d !in u.defaults || e !in u.defaults {
        assert d.interfaceId == id;
        assert SameName(d.interfaceName, name);
        assert SameName(e.interfaceName, name);
      }
    }
  }

  lemma {:induction false} SameLength(a: string, b: string)
    requires SameName(a, b)
    ensures |a| == |b|
  {
  }

  // ---------------------------------------------------------------------------------------------
  // Stale defaults
  // ---------------------------------------------------------------------------------------------

  /** A default that is an identifier is given up, and the name given another one, if any. */
  function Reset(u: Tables, id: Id, choice: Option<DefaultRow>): Tables {
    match choice
    case None => WithoutDefaultsTo(u, id)
    case Some(d) => WithDefault(WithoutDefaultsTo(u, id), d.interfaceName, d.interfaceId)
  }

  /** Each implementation of a name in a database has stored a property. */
  predicate NamedStored(t: Tables, name: string) {
    forall i | i in t.interfaces && SameName(i.name, name) :: HasProperties(t, i.id)
  }

  /** All implementations of a name can be read: a query for them does not end as on a corrupt database. */
  predicate Readable(u: Tables, s: Tables, name: string) {
    NamedStored(u, name) && NamedStored(s, name)
  }

  /** Defaults do not matter to that. */
  lemma {:induction false} ReadableAside(u0: Tables, u: Tables, s: Tables)
    requires u == u0.(defaults := u.defaults)
    ensures forall name :: Readable(u, s, name) <==> Readable(u0, s, name)
  {
    assert forall id :: HasProperties(u, id) <==> HasProperties(u0, id);
    hide SameName, HasProperties;
  }

  /** The rows that a query for a name selects are the implementations of that name. */
  lemma {:induction false} NamedSelected(t: Tables, next: Id, name: string)
    requires Integrity(t, next) && name != ""
    ensures AllStored(t, Selected(t, NameFilter(name))) <==> NamedStored(t, name)
  {
    hide Integrity, HasProperties, SameName;
    assert forall x: JoinedRow :: RowMatches(NameFilter(name), x) <==> SameName(x.1.name, name);
    hide RowMatches, NameFilter;
    if AllStored(t, Selected(t, NameFilter(name))) {
      forall i | i in t.interfaces && SameName(i.name, name)
        ensures HasProperties(t, i.id)
      {
        JoinedOnce(t, next, i);
        var r :| (r, i) in Joined(t);
        assert (r, i) in Selected(t, NameFilter(name));
      }
    }
  }

  /** The new default is an implementation of the name with the greatest version in either database; if there
      is none at all, or not all can be read, there is no default. */
  ghost predicate GoodReset(u: Tables, s: Tables, name: string, choice: Option<DefaultRow>) {
    match choice
    case None => !Implemented(name, Both(u, s)) || !Readable(u, s, name)
    case Some(d) =>
      SameName(d.interfaceName, name) && Best(d.interfaceId, Lower(name), Both(u, s))
      && BeatsUser(u, s, name, d.interfaceId) && Readable(u, s, name)
  }

  /** An interface of either database has this identifier. */
  predicate Exists(u: Tables, s: Tables, id: Id) {
    id in InterfaceIds(u.interfaces) || id in InterfaceIds(s.interfaces)
  }

  /** The user's default of a name, if there is one, refers to a row. */
  ghost predicate NotStale(u: Tables, s: Tables, name: string) {
    forall d | d in u.defaults && SameName(d.interfaceName, name) :: Exists(u, s, d.interfaceId)
  }

  /** Each of the user's defaults refers to a row, except perhaps some. */
  ghost predicate SettledBut(u: Tables, s: Tables, others: seq<DefaultRow>) {
    forall d | d in u.defaults :: Exists(u, s, d.interfaceId) || d in others
  }

  /** The default of a name is a greatest version in either database; a name that nothing implements, or whose
      implementations cannot all be read, has no default. */
  ghost predicate Newest(u: Tables, s: Tables, name: string) {
    if Implemented(name, Both(u, s)) && Readable(u, s, name) then exists d :: IsNewest(u, s, name, d)
    else !HasDefault(name, u.defaults)
  }

  ghost predicate IsNewest(u: Tables, s: Tables, name: string, d: DefaultRow) {
    && d in u.defaults && SameName(d.interfaceName, name)
    && Best(d.interfaceId, Lower(name), Both(u, s)) && BeatsUser(u, s, name, d.interfaceId)
  }

  lemma {:induction false} BestExists(u: Tables, s: Tables, name: string, id: Id)
    requires Best(id, Lower(name), Both(u, s))
    ensures Exists(u, s, id) && Implemented(name, Both(u, s))
    ensures ImplementedBy(name, id, u.interfaces) || ImplementedBy(name, id, s.interfaces)
  {
    hide Lower, BelowRow;
  }

  /** What giving up a stale default leaves. */
  lemma {:induction false} ResetRows(u: Tables, id: Id, choice: Option<DefaultRow>)
    ensures Reset(u, id, choice) == u.(defaults := Reset(u, id, choice).defaults)
    ensures forall d | d in Reset(u, id, choice).defaults ::
              (d in u.defaults && d.interfaceId != id)
              || (choice.Some? && SameName(d.interfaceName, choice.value.interfaceName)
                && d.interfaceId == choice.value.interfaceId)
    ensures forall d | d in u.defaults && d.interfaceId != id
              && (choice.Some? ==> !SameName(d.interfaceName, choice.value.interfaceName)) ::
              d in Reset(u, id, choice).defaults
    ensures choice.Some? ==>
              exists d :: d in Reset(u, id, choice).defaults && SameName(d.interfaceName, choice.value.interfaceName)
                                        && d.interfaceId == choice.value.interfaceId
  {
    hide Lower;
    if choice.Some? {
      var w := WithoutDefaultsTo(u, id);
      SetRowOrigins(w, choice.value.interfaceName, choice.value.interfaceId);
      ChosenRow(w, choice.value.interfaceName, choice.value.interfaceId);
    }
  }

  lemma {:induction false} ChosenRow(u: Tables, name: string, id: Id)
    ensures exists d :: d in WithDefault(u, name, id).defaults && SameName(d.interfaceName, name) && d.interfaceId == id
    ensures forall d | d in u.defaults && !SameName(d.interfaceName, name) :: d in WithDefault(u, name, id).defaults
  {
    hide Lower;
    var w := WithDefault(u, name, id).defaults;
    if HasDefault(name, u.defaults) {
      var d :| d in u.defaults && SameName(d.interfaceName, name);
      assert DefaultRow(d.interfaceName, id) in w;
    } else {
      assert DefaultRow(name, id) in w;
    }
  }

  lemma {:induction false} ResetSettles(u: Tables, s: Tables, d: DefaultRow, others: seq<DefaultRow>,
      choice: Option<DefaultRow>)
    requires SettledBut(u, s, [d] + others) && (choice.Some? ==> Exists(u, s, choice.value.interfaceId))
    ensures SettledBut(Reset(u, d.interfaceId, choice), s, others)
  {
    ResetRows(u, d.interfaceId, choice);
    hide Reset, SameName, InterfaceIds;
  }

  lemma {:induction false} LinkedOrigins(defaults: set<DefaultRow>, un: Id, interfaces: set<InterfaceRow>, sn: Id)
    requires Linked(defaults, un, interfaces, sn)
    ensures un.origin != sn.origin
  {
  }

  // ---------------------------------------------------------------------------------------------
  // Giving up all external defaults
  // ---------------------------------------------------------------------------------------------

  /** The external defaults, each once. */
  ghost predicate ListsExternals(u: Tables, info: seq<DefaultRow>) {
    && (forall k | 0 <= k < |info| :: info[k] in ExternalDefaults(u))
    && (forall d | d in ExternalDefaults(u) :: d in info)
    && (forall j, k | 0 <= j < k < |info| :: info[j] != info[k])
  }

  /** The first k external defaults were given up, and their names given the newest implementation or none. */
  ghost predicate Cleaning(before: Tables, u: Tables, s: Tables, info: seq<DefaultRow>, k: nat) {
    && u == before.(defaults := u.defaults)
    && (forall d | d in before.defaults && d !in ExternalDefaults(before) :: d in u.defaults)
    && (forall j | k <= j < |info| :: info[j] in u.defaults)
    && (forall j | 0 <= j < k && j < |info| :: Newest(u, s, info[j].interfaceName))
    && (forall d | d in u.defaults :: d in before.defaults || exists j ::
      0 <= j < k && j < |info| && SameName(d.interfaceName, info[j].interfaceName))
  }

  /** The defaults once the system's database was opened: the user's own are as they were; of an external
      one only its name is left, and has the newest implementation as its default, or none if not all can be
      read, whatever it had before. */
  ghost predicate Cleaned(before: Tables, u: Tables, s: Tables) {
    && u == before.(defaults := u.defaults)
    && (forall d | d in before.defaults && d !in ExternalDefaults(before) :: d in u.defaults)
    && (forall d | d in ExternalDefaults(before) :: Newest(u, s, d.interfaceName))
    && (forall d | d in u.defaults :: d in before.defaults || exists e ::
      e in ExternalDefaults(before) && SameName(d.interfaceName, e.interfaceName))
  }

  lemma {:induction false} CleaningEnds(before: Tables, s: Tables, info: seq<DefaultRow>)
    requires ListsExternals(before, info)
    ensures Cleaning(before, before, s, info, 0) && SettledBut(before, s, info)
    ensures forall u | Cleaning(before, u, s, info, |info|) :: Cleaned(before, u, s)
  {
    hide Newest, SameName;
    forall u | Cleaning(before, u, s, info, |info|)
      ensures Cleaned(before, u, s)
    {
      forall d | d in ExternalDefaults(before)
        ensures Newest(u, s, d.interfaceName)
      {
        assert d in info;
      }
    }
  }

  /** Different names. */
  lemma {:induction false} OtherNames(u: Tables, un: Id, info: seq<DefaultRow>, j: nat, k: nat)
    requires Integrity(u, un) && ListsExternals(u, info) && j < |info| && k < |info| && j != k
    ensures !SameName(info[j].interfaceName, info[k].interfaceName)
  {
    hide ServicesOk, OwnersOk, Described, InterfacesOk, Lower, ImplementedBy;
    assert info[j] != info[k];
  }

  lemma {:induction false} NamesApart(u: Tables, un: Id, d: DefaultRow, info: seq<DefaultRow>, k: nat)
    requires Integrity(u, un) && ListsExternals(u, info) && k < |info| && d in u.defaults && d !in ExternalDefaults(u)
    ensures !SameName(d.interfaceName, info[k].interfaceName)
  {
    hide ServicesOk, OwnersOk, Described, InterfacesOk, Lower, ImplementedBy;
    assert info[k] in ExternalDefaults(u);
  }

  lemma {:induction false} IdsApart(u: Tables, un: Id, s: Tables, sn: Id, info: seq<DefaultRow>, j: nat, k: nat)
    requires Integrity(u, un) && Linked(u.defaults, un, s.interfaces, sn) && ListsExternals(u, info) && j < |info|
               && k < |info| && j != k
    ensures info[j].interfaceId != info[k].interfaceId
  {
    ExternalOrigin(u, un, info[j]);
    ExternalOrigin(u, un, info[k]);
    hide Integrity, LinkOk, ExternalDefaults;
    assert info[j] != info[k];
  }

  lemma {:induction false} ExternalOrigin(u: Tables, un: Id, d: DefaultRow)
    requires Integrity(u, un) && d in ExternalDefaults(u)
    ensures d in u.defaults && d.interfaceId.origin != un.origin
  {
    hide ServicesOk, OwnersOk, Described, InterfacesOk, SameName;
  }

  /** A row of both databases together that an external default refers to implements the default's name. */
  lemma {:induction false} ExternalImplements(u: Tables, un: Id, s: Tables, sn: Id, d: DefaultRow, i: InterfaceRow)
    requires Integrity(u, un) && Linked(u.defaults, un, s.interfaces, sn) && d in ExternalDefaults(u)
               && i in Both(u, s) && i.id == d.interfaceId
    ensures SameName(i.name, d.interfaceName)
  {
    ExternalOrigin(u, un, d);
    hide Integrity, SameName;
    forall j | j in u.interfaces
      ensures j.id != d.interfaceId
    {
      assert j.id in InterfaceIds(u.interfaces);
    }
    assert LinkOk(d, s.interfaces, sn);
  }

  lemma {:induction false} BestApart(u: Tables, un: Id, s: Tables, sn: Id, d: DefaultRow, name: string, id: Id)
    requires Integrity(u, un) && Linked(u.defaults, un, s.interfaces, sn) && d in ExternalDefaults(u)
    requires !SameName(name, d.interfaceName) && Best(id, Lower(name), Both(u, s))
    ensures id != d.interfaceId
  {
    hide Integrity, Linked, ExternalDefaults, Both, BelowRow, Lower;
    var i :| i in Both(u, s) && i.id == id && Lower(i.name) == Lower(name);
    if id == d.interfaceId {
      ExternalImplements(u, un, s, sn, d, i);
    }
  }

  /** A name dealt with stays as it is when another one is reset. */
  lemma {:induction false} NewestStays(before: Tables, un: Id, u: Tables, s: Tables, sn: Id, name: string,
      d: DefaultRow, choice: Option<DefaultRow>)
    requires Integrity(before, un) && Linked(before.defaults, un, s.interfaces, sn) && d in ExternalDefaults(before)
    requires u == before.(defaults := u.defaults) && GoodReset(u, s, d.interfaceName, choice)
    requires !SameName(name, d.interfaceName) && Newest(u, s, name)
    ensures Newest(Reset(u, d.interfaceId, choice), s, name)
  {
    var w := Reset(u, d.interfaceId, choice);
    ResetRows(u, d.interfaceId, choice);
    ReadableAside(u, w, s);
    hide Integrity, Linked, Reset, ExternalDefaults, Best, Implemented, Lower, Readable;
    assert Both(w, s) == Both(u, s) == Both(before, s);
    if Implemented(name, Both(u, s)) && Readable(u, s, name) {
      var e :| IsNewest(u, s, name, e);
      BestApart(before, un, s, sn, d, name, e.interfaceId);
      assert e in w.defaults;
      assert IsNewest(w, s, name, e);
    }
  }

  lemma {:induction false} NewestNow(u: Tables, un: Id, s: Tables, d: DefaultRow, choice: Option<DefaultRow>)
    requires Integrity(u, un) && d in u.defaults && GoodReset(u, s, d.interfaceName, choice)
    ensures Newest(Reset(u, d.interfaceId, choice), s, d.interfaceName)
  {
    var w := Reset(u, d.interfaceId, choice);
    ResetRows(u, d.interfaceId, choice);
    UniqueNamed(u, un, d);
    if choice.Some? {
      BestExists(u, s, d.interfaceName, choice.value.interfaceId);
    }
    ReadableAside(u, w, s);
    hide Integrity, Reset, Best, Implemented, Lower, Readable;
    assert Both(w, s) == Both(u, s);
    if choice.Some? {
      var e :| e in w.defaults && SameName(e.interfaceName, choice.value.interfaceName)
        && e.interfaceId == choice.value.interfaceId;
      assert IsNewest(w, s, d.interfaceName, e);
    }
  }

  lemma {:induction false} UniqueNamed(u: Tables, un: Id, d: DefaultRow)
    requires Integrity(u, un) && d in u.defaults
    ensures forall e | e in u.defaults && SameName(e.interfaceName, d.interfaceName) :: e == d
  {
    hide ServicesOk, OwnersOk, Described, InterfacesOk, Lower, ImplementedBy;
  }

  lemma {:induction false} GoodName(u: Tables, s: Tables, name: string, choice: Option<DefaultRow>)
    requires GoodReset(u, s, name, choice) && choice.Some?
    ensures forall n :: SameName(n, choice.value.interfaceName) <==> SameName(n, name)
  {
    hide Best, Lower, Readable;
  }

  lemma {:induction false} CleaningStep(before: Tables, un: Id, u: Tables, s: Tables, sn: Id, info: seq<DefaultRow>,
      k: nat, choice: Option<DefaultRow>)
    requires Integrity(before, un) && Integrity(u, un) && Linked(before.defaults, un, s.interfaces, sn)
               && ListsExternals(before, info)
    requires k < |info| && Cleaning(before, u, s, info, k) && GoodReset(u, s, info[k].interfaceName, choice)
    ensures Cleaning(before, Reset(u, info[k].interfaceId, choice), s, info, k + 1)
  {
    var d := info[k];
    var w := Reset(u, d.interfaceId, choice);
    ResetRows(u, d.interfaceId, choice);
    NewestNow(u, un, s, d, choice);
    assert d in ExternalDefaults(before);
    if choice.Some? {
      GoodName(u, s, d.interfaceName, choice);
    }
    hide Integrity, Linked, Reset, GoodReset, SameName, Newest, ListsExternals, ExternalDefaults;
    forall e | e in before.defaults && e !in ExternalDefaults(before)
      ensures e in w.defaults
    {
      NamesApart(before, un, e, info, k);
    }
    forall j | k < j < |info|
      ensures info[j] in w.defaults
    {
      OtherNames(before, un, info, j, k);
      IdsApart(before, un, s, sn, info, j, k);
    }
    forall j | 0 <= j < k
      ensures Newest(w, s, info[j].interfaceName)
    {
      OtherNames(before, un, info, j, k);
      NewestStays(before, un, u, s, sn, info[j].interfaceName, d, choice);
    }
    forall e | e in w.defaults
      ensures e in before.defaults || exists j :: 0 <= j < k + 1 && SameName(e.interfaceName, info[j].interfaceName)
    {
      if e in u.defaults {
        if e !in before.defaults {
          var j :| 0 <= j < k && SameName(e.interfaceName, info[j].interfaceName);
        }
      } else {
        assert SameName(e.interfaceName, info[k].interfaceName);
      }
    }
  }

  /** Opening the system's database keeps an external default only if all implementations of its name can be
      read, it is a newest one, and newer than all of the user's own; and then it does, unless the system has
      another one of that version and the engine lists it first. */
  lemma {:induction false} KeptExternal(before: Tables, u: Tables, s: Tables, d: DefaultRow)
    requires Cleaned(before, u, s) && d in ExternalDefaults(before) && UniqueNames(u.defaults)
    ensures DefaultIs(u, d.interfaceName, d.interfaceId) ==> Keepable(before, s, d)
    ensures Keepable(before, s, d) && OnlyBest(d.interfaceId, d.interfaceName, s.interfaces) ==>
              DefaultIs(u, d.interfaceName, d.interfaceId)
    ensures !Readable(before, s, d.interfaceName) ==> !HasDefault(d.interfaceName, u.defaults)
  {
    var name, id := d.interfaceName, d.interfaceId;
    assert Newest(u, s, name);
    assert Both(u, s) == Both(before, s) && u.interfaces == before.interfaces;
    assert id !in InterfaceIds(before.interfaces);
    ReadableAside(before, u, s);
    hide Cleaned, Best, Lower, Both, ExternalDefaults, Readable;
    if Best(id, Lower(name), Both(before, s)) {
      BestExists(before, s, name, id);
    }
    if DefaultIs(u, name, id) {
      var e :| e in u.defaults && SameName(e.interfaceName, name) && e.interfaceId == id;
      assert HasDefault(name, u.defaults);
      var n :| IsNewest(u, s, name, n);
      assert n == e;
    }
    if Keepable(before, s, d) && OnlyBest(id, name, s.interfaces) {
      var n :| IsNewest(u, s, name, n);
      NotBelow(u, s, name, id, n.interfaceId);
    }
  }

  /** What an external default needs to be kept, seen in the tables before. */
  ghost predicate Keepable(before: Tables, s: Tables, d: DefaultRow) {
    && Readable(before, s, d.interfaceName)
    && Best(d.interfaceId, Lower(d.interfaceName), Both(before, s))
    && AboveUser(before, s, d.interfaceName, d.interfaceId)
  }

  /** If an identifier at system scope is above the user's own, every best one is a best one at system scope. */
  lemma {:induction false} NotBelow(u: Tables, s: Tables, name: string, id: Id, other: Id)
    requires Best(id, Lower(name), Both(u, s)) && id !in InterfaceIds(u.interfaces) && AboveUser(u, s, name, id)
    requires Best(other, Lower(name), Both(u, s))
    ensures Best(other, Lower(name), s.interfaces)
  {
    hide Lower, BelowRow;
    var i :| i in Both(u, s) && i.id == id && Lower(i.name) == Lower(name);
    forall j | j in u.interfaces
      ensures j.id != id
    {
      assert j.id in InterfaceIds(u.interfaces);
    }
    var o :| o in Both(u, s) && o.id == other && Lower(o.name) == Lower(name)
             && forall j | j in Both(u, s) && Lower(j.name) == Lower(name) :: !BelowRow(o, j);
    assert i in s.interfaces;
    assert o in u.interfaces ==> BelowRow(o, i);
  }

  ghost predicate OnlyBest(id: Id, name: string, interfaces: set<InterfaceRow>) {
    forall other | Best(other, Lower(name), interfaces) :: other == id
  }

  /** In particular a tie with one of the user's own loses. */
  lemma {:induction false} TiedExternalLost(before: Tables, u: Tables, s: Tables, d: DefaultRow, i: InterfaceRow,
      j: InterfaceRow)
    requires Cleaned(before, u, s) && d in ExternalDefaults(before) && UniqueNames(u.defaults)
    requires i in s.interfaces && i.id == d.interfaceId && j in before.interfaces && SameName(j.name, d.interfaceName)
    requires i.major == j.major && i.minor == j.minor
    ensures !DefaultIs(u, d.interfaceName, d.interfaceId)
  {
    hide Cleaned, Best, Lower, Both, ExternalDefaults, DefaultIs;
    KeptExternal(before, u, s, d);
    assert !BelowRow(j, i);
  }

  /** So a user who chose version 1.0 of an interface at system scope loses that choice to version 2.0 at user
      scope, although the chosen one is still there. */
  lemma {:induction false} ValidExternalLost(before: Tables, s: Tables, u: Tables)
    requires before.interfaces == {InterfaceRow(Id(0, 1), Id(0, 0), "f", 2, 0)}
               && before.defaults == {DefaultRow("f", Id(1, 1))}
    requires s.interfaces == {InterfaceRow(Id(1, 1), Id(1, 0), "f", 1, 0)}
    requires Cleaned(before, u, s) && UniqueNames(u.defaults)
    ensures Exists(before, s, Id(1, 1)) && !DefaultIs(u, "f", Id(1, 1))
    ensures Readable(before, s, "f") ==> DefaultIs(u, "f", Id(0, 1))
  {
    var d := DefaultRow("f", Id(1, 1));
    var newest, older := InterfaceRow(Id(0, 1), Id(0, 0), "f", 2, 0), InterfaceRow(Id(1, 1), Id(1, 0), "f", 1, 0);
    assert newest in Both(u, s) && older in Both(u, s) && older in s.interfaces && older.id == Id(1, 1);
    assert d in ExternalDefaults(before);
    assert Implemented("f", Both(u, s)) by {
      assert SameName(newest.name, "f");
    }
    ReadableAside(before, u, s);
    if Readable(before, s, "f") {
      var e :| IsNewest(u, s, "f", e);
      assert BelowRow(older, newest);
      assert e.interfaceId == Id(0, 1);
    }
    hide Cleaned, Best, SameName;
  }

  /** And a user whose choice is the only newest implementation, at system scope, loses it without another one
      because a second service there implements the interface and has stored no property. */
  lemma {:induction false} ReadableExternalLost(before: Tables, s: Tables, u: Tables)
    requires before.interfaces == {} && before.defaults == {DefaultRow("f", Id(1, 1))}
    requires s == BareSibling() && Cleaned(before, u, s)
    ensures var d := DefaultRow("f", Id(1, 1));
      && d in ExternalDefaults(before) && Best(d.interfaceId, Lower("f"), Both(before, s))
      && AboveUser(before, s, "f", d.interfaceId) && OnlyBest(d.interfaceId, "f", s.interfaces)
      && HasProperties(s, d.interfaceId)
    ensures !Readable(before, s, "f") && u.defaults == {}
  {
    var chosen, bare := InterfaceRow(Id(1, 1), Id(1, 0), "f", 2, 0), InterfaceRow(Id(1, 3), Id(1, 2), "f", 1, 0);
    assert chosen in s.interfaces && bare in s.interfaces && Both(before, s) == s.interfaces;
    assert BelowRow(bare, chosen) && SameName(bare.name, "f");
    assert Property(chosen.id, DESCRIPTION_KEY, "") in s.interfaceProps;
    assert DefaultRow("f", Id(1, 1)) in ExternalDefaults(before);
    assert !HasProperties(s, bare.id);
    ReadableAside(before, u, s);
    hide Lower, Readable;
  }

  /** The databases of that case are sound. */
  lemma {:induction false} BareSiblingSound()
    ensures var s := BareSibling(); Integrity(s, Id(1, 4)) && AllLocal(s) && AllDefaulted(s)
    ensures Linked({DefaultRow("f", Id(1, 1))}, Id(0, 0), BareSibling().interfaces, Id(1, 4))
  {
    BareServices();
    BareInterfaces();
    BareOwners();
    BareDefaults();
    BareLinked();
    hide ServicesOk, InterfacesOk, DefaultsOk, Described, OwnersOk, Linked, AllLocal, AllDefaulted;
  }

  lemma {:induction false} BareServices()
    ensures var s := BareSibling(); ServicesOk(s.services, Id(1, 4)) && Described(s.services, s.serviceProps)
  {
    assert Lower("p")[0] == 'p' && Lower("q")[0] == 'q';
    hide Lower;
    var s := BareSibling();
    assert Property(Id(1, 0), DESCRIPTION_KEY, "") in s.serviceProps;
    assert Property(Id(1, 2), DESCRIPTION_KEY, "") in s.serviceProps;
  }

  lemma {:induction false} BareInterfaces()
    ensures var s := BareSibling(); InterfacesOk(s.services, s.interfaces, Id(1, 4))
  {
    hide Lower, SameName;
    var s := BareSibling();
    assert ServiceRow(Id(1, 0), "s", "p") in s.services && ServiceRow(Id(1, 2), "t", "q") in s.services;
  }

  lemma {:induction false} BareOwners()
    ensures var s := BareSibling();
      && OwnersOk(s.serviceProps, ServiceIds(s.services)) && OwnersOk(s.interfaceProps, InterfaceIds(s.interfaces))
  {
    var s := BareSibling();
    assert ServiceRow(Id(1, 0), "s", "p") in s.services && ServiceRow(Id(1, 2), "t", "q") in s.services;
    assert InterfaceRow(Id(1, 1), Id(1, 0), "f", 2, 0) in s.interfaces;
  }

  lemma {:induction false} BareDefaults()
    ensures var s := BareSibling();
      DefaultsOk(s.defaults, s.interfaces, Id(1, 4)) && AllLocal(s) && AllDefaulted(s)
  {
    hide Lower;
    var s := BareSibling();
    assert InterfaceRow(Id(1, 1), Id(1, 0), "f", 2, 0) in s.interfaces && DefaultRow("f", Id(1, 1)) in s.defaults;
  }

  lemma {:induction false} BareLinked()
    ensures Linked({DefaultRow("f", Id(1, 1))}, Id(0, 0), BareSibling().interfaces, Id(1, 4))
  {
    hide Lower;
    var d := DefaultRow("f", Id(1, 1));
    assert LinkOk(d, BareSibling().interfaces, Id(1, 4));
    hide LinkOk;
  }

  /** Two services that implement one interface, of which the second stored nothing about it. */
  function BareSibling(): Tables {
    Tables({ServiceRow(Id(1, 0), "s", "p"), ServiceRow(Id(1, 2), "t", "q")},
           {InterfaceRow(Id(1, 1), Id(1, 0), "f", 2, 0), InterfaceRow(Id(1, 3), Id(1, 2), "f", 1, 0)},
           {Property(Id(1, 0), DESCRIPTION_KEY, ""), Property(Id(1, 2), DESCRIPTION_KEY, "")},
           {Property(Id(1, 1), DESCRIPTION_KEY, "")}, {DefaultRow("f", Id(1, 1))})
  }

  // ---------------------------------------------------------------------------------------------
  // The default that is found
  // ---------------------------------------------------------------------------------------------

  /** A descriptor of the row that is the default of a name in the tables of one of the databases. */
  ghost predicate IsDefaultOf(u: Tables, s: Tables, t: Tables, name: string, d: Descriptor) {
    exists x: ScopedRow :: x.1 in Joined(TablesOf(u, s, x.0)) && d == LoadedIn(u, s, x) && DefaultIs(t, name, x.1.1.id)
  }

  lemma {:induction false} DefaultInScope(u: Tables, s: Tables, t: Tables, name: string, d: Descriptor)
    requires IsDefaultOf(u, s, t, name, d)
    ensures InScope(u, s, d)
  {
    hide Joined, Loaded, DefaultIs;
  }

  /** The tables of a database in which each interface has a default and stored a property. */
  ghost predicate InOrder(t: Tables) {
    Populated(t) && AllDefaulted(t)
  }

  /** The default of a name is a row of these tables that has stored a property. */
  predicate OwnFound(t: Tables, name: string) {
    exists d | d in t.defaults :: SameName(d.interfaceName, name) && d.interfaceId in InterfaceIds(t.interfaces)
                                  && HasProperties(t, d.interfaceId)
  }

  /** What an identifier of the system's database leads to: its row, or if that is gone, an implementation of
      the name. */
  predicate ExternalFound(u: Tables, s: Tables, name: string, id: Id) {
    if id in InterfaceIds(s.interfaces) then HasProperties(s, id)
    else Implemented(name, Both(u, s)) && Readable(u, s, name)
  }

  /** There is a default to be found: the user's, which is an own row or leads to the system's database; or if
      the user has none, the system's. */
  predicate Findable(u: Tables, s: Tables, name: string) {
    if HasDefault(name, u.defaults)
    then exists d | d in u.defaults :: SameName(d.interfaceName, name)
           && if d.interfaceId in InterfaceIds(u.interfaces) then HasProperties(u, d.interfaceId)
              else ExternalFound(u, s, name, d.interfaceId)
    else OwnFound(s, name)
  }

  /** The user's default is an identifier of another database. `there` tells whether the system has the row. */
  predicate LeadsOut(u: Tables, s: Tables, name: string, there: bool) {
    exists d | d in u.defaults :: SameName(d.interfaceName, name) && d.interfaceId !in InterfaceIds(u.interfaces)
                                  && (d.interfaceId in InterfaceIds(s.interfaces) <==> there)
  }

  /** Nobody has a default, or the user's is an identifier whose row is gone. */
  predicate Missing(u: Tables, s: Tables, name: string) {
    if HasDefault(name, u.defaults) then LeadsOut(u, s, name, false) else !HasDefault(name, s.defaults)
  }

  /** A default read from its own database. */
  lemma {:induction false} OwnRead(t: Tables, next: Id, name: string, d: Descriptor)
    requires Integrity(t, next) && DefaultLoads(t, name, d) && DefaultReadable(t, name)
    ensures OwnFound(t, name) && HasDefault(name, t.defaults)
    ensures forall s :: Findable(t, s, name)
  {
    hide Integrity, Lower, Joined, Loaded, HasProperties;
    var x :| x in Joined(t) && d == Loaded(t, x) && DefaultIs(t, name, x.1.id);
    LoadedFacts(t, x);
    var e :| e in t.defaults && SameName(e.interfaceName, name) && e.interfaceId == x.1.id;
    assert x.1 in t.interfaces && e.interfaceId in InterfaceIds(t.interfaces);
  }

  /** A default that its own database cannot read. */
  lemma {:induction false} OwnUnread(t: Tables, next: Id, name: string)
    requires Integrity(t, next) && !DefaultReadable(t, name)
    ensures !OwnFound(t, name) && HasDefault(name, t.defaults)
    ensures forall s :: !Findable(t, s, name) && !Missing(t, s, name) && !LeadsOut(t, s, name, true)
  {
    hide Lower, HasProperties, InterfaceIds;
    var d :| d in t.defaults && SameName(d.interfaceName, name)
      && d.interfaceId in InterfaceIds(t.interfaces) && !HasProperties(t, d.interfaceId);
    UniqueNamed(t, next, d);
    hide Integrity;
    SameNames(d.interfaceName, name);
    hide SameName;
  }

  lemma {:induction false} SameNames(a: string, b: string)
    requires SameName(a, b)
    ensures forall c :: SameName(c, a) <==> SameName(c, b)
  {
    hide Lower;
  }

  /** A default that leads out of the user's database. */
  lemma {:induction false} OutLed(u: Tables, un: Id, s: Tables, name: string, id: Id)
    requires Integrity(u, un) && DefaultIs(u, name, id) && id !in InterfaceIds(u.interfaces)
    ensures HasDefault(name, u.defaults) && (Findable(u, s, name) <==> ExternalFound(u, s, name, id))
    ensures forall there :: LeadsOut(u, s, name, there) <==> (id in InterfaceIds(s.interfaces) <==> there)
  {
    hide Lower, HasProperties, InterfaceIds, Implemented, Readable;
    var d :| d in u.defaults && SameName(d.interfaceName, name) && d.interfaceId == id;
    UniqueNamed(u, un, d);
    hide Integrity;
    SameNames(d.interfaceName, name);
    hide SameName;
  }

  /** Without a default of the user's. */
  lemma {:induction false} NoneOfUsers(u: Tables, s: Tables, name: string)
    ensures !HasDefault(name, u.defaults) ==>
              && (Findable(u, s, name) <==> OwnFound(s, name))
              && (Missing(u, s, name) <==> !HasDefault(name, s.defaults))
              && !LeadsOut(u, s, name, true)
  {
    hide SameName, OwnFound;
  }

  lemma {:induction false} NoOwn(t: Tables, name: string)
    ensures !HasDefault(name, t.defaults) ==> !OwnFound(t, name)
  {
    hide SameName, HasProperties;
  }

  lemma {:induction false} MissingOut(u: Tables, s: Tables, name: string)
    ensures HasDefault(name, u.defaults) ==> (Missing(u, s, name) <==> LeadsOut(u, s, name, false))
  {
  }

  /** A default that cannot be read, or whose row cannot, is not stale for that. */
  lemma {:induction false} UnreadNotStale(u: Tables, un: Id, s: Tables, name: string)
    requires Integrity(u, un) && !DefaultReadable(u, name)
    ensures NotStale(u, s, name)
  {
    hide Lower, HasProperties, InterfaceIds;
    var d :| d in u.defaults && SameName(d.interfaceName, name)
      && d.interfaceId in InterfaceIds(u.interfaces) && !HasProperties(u, d.interfaceId);
    UniqueNamed(u, un, d);
    SameNames(d.interfaceName, name);
    hide Integrity, SameName;
  }

  lemma {:induction false} OutNotStale(u0: Tables, u: Tables, s: Tables, name: string, id: Id)
    requires forall e | e in u0.defaults && SameName(e.interfaceName, name) :: e.interfaceId == id
    ensures id in InterfaceIds(s.interfaces) && (u == u0 || SettledBut(u, s, [])) ==> NotStale(u, s, name)
  {
    hide SameName, InterfaceIds;
  }

  /** Where each database has a default for the name if it implements it, and all implementations can be read, a
      default is found exactly if the name is implemented. */
  lemma {:induction false} FoundIfReadable(u: Tables, un: Id, s: Tables, sn: Id, name: string)
    requires Integrity(u, un) && Integrity(s, sn) && AllLocal(s) && Linked(u.defaults, un, s.interfaces, sn)
    requires Readable(u, s, name) && NamedDefaulted(u, name) && NamedDefaulted(s, name)
    ensures Findable(u, s, name) <==> Implemented(name, Both(u, s))
  {
    hide Integrity, AllLocal, Linked, HasProperties, Lower, NamedStored, InterfaceIds;
    ImplementedInEither(u, s, name);
    hide Both;
    if HasDefault(name, u.defaults) {
      var d :| d in u.defaults && SameName(d.interfaceName, name);
      if d.interfaceId in InterfaceIds(u.interfaces) {
        LocalStored(u, un, name, d);
      } else {
        OutLed(u, un, s, name, d.interfaceId);
        hide Findable;
        if d.interfaceId in InterfaceIds(s.interfaces) {
          OutStored(u, un, s, sn, name, d);
        }
      }
    } else if HasDefault(name, s.defaults) {
      var d :| d in s.defaults && SameName(d.interfaceName, name);
      NotExternal(s, name, d.interfaceId);
      LocalStored(s, sn, name, d);
    }
  }

  lemma {:induction false} LocalStored(t: Tables, next: Id, name: string, d: DefaultRow)
    requires Integrity(t, next) && d in t.defaults && SameName(d.interfaceName, name)
               && d.interfaceId in InterfaceIds(t.interfaces)
    ensures Implemented(name, t.interfaces) && (NamedStored(t, name) ==> HasProperties(t, d.interfaceId))
  {
    LocalImplements(t, next, d);
    hide Integrity, Lower, HasProperties;
    var i :| i in t.interfaces && i.id == d.interfaceId && SameName(i.name, d.interfaceName);
  }

  lemma {:induction false} OutStored(u: Tables, un: Id, s: Tables, sn: Id, name: string, d: DefaultRow)
    requires Integrity(u, un) && Linked(u.defaults, un, s.interfaces, sn) && d in ExternalDefaults(u)
    requires SameName(d.interfaceName, name) && d.interfaceId in InterfaceIds(s.interfaces)
    ensures Implemented(name, s.interfaces) && (NamedStored(s, name) ==> HasProperties(s, d.interfaceId))
  {
    ExternalOrigin(u, un, d);
    hide Integrity, Lower, HasProperties;
    var i :| i in s.interfaces && i.id == d.interfaceId;
    assert LinkOk(d, s.interfaces, sn);
  }

  /** An implemented name has a default. */
  predicate NamedDefaulted(t: Tables, name: string) {
    Implemented(name, t.interfaces) ==> HasDefault(name, t.defaults)
  }

  /** The same for one database, which has defaults of its own only. */
  lemma {:induction false} OwnFoundIfStored(t: Tables, next: Id, name: string)
    requires Integrity(t, next) && AllLocal(t) && NamedStored(t, name) && NamedDefaulted(t, name)
    ensures OwnFound(t, name) <==> Implemented(name, t.interfaces)
  {
    hide Integrity, AllLocal, HasProperties, Lower, NamedStored, InterfaceIds;
    if HasDefault(name, t.defaults) {
      var d :| d in t.defaults && SameName(d.interfaceName, name);
      NotExternal(t, name, d.interfaceId);
      LocalStored(t, next, name, d);
    }
  }

  /** In particular in databases in order. */
  lemma {:induction false} FoundInOrder(u: Tables, un: Id, s: Tables, sn: Id, name: string)
    requires Integrity(u, un) && Integrity(s, sn) && AllLocal(s) && Linked(u.defaults, un, s.interfaces, sn)
    requires InOrder(u) && InOrder(s)
    ensures Findable(u, s, name) <==> Implemented(name, Both(u, s))
    ensures OwnFound(s, name) <==> Implemented(name, s.interfaces)
  {
    NamedInOrder(u, name);
    NamedInOrder(s, name);
    hide Integrity, AllLocal, Linked, InOrder, Findable, OwnFound, NamedDefaulted, NamedStored, Implemented;
    FoundIfReadable(u, un, s, sn, name);
    OwnFoundIfStored(s, sn, name);
  }

  lemma {:induction false} NamedInOrder(t: Tables, name: string)
    requires InOrder(t)
    ensures NamedStored(t, name) && NamedDefaulted(t, name)
  {
    hide HasProperties, Lower;
    if Implemented(name, t.interfaces) {
      var i :| i in t.interfaces && SameName(i.name, name);
      var d :| d in t.defaults && SameName(d.interfaceName, i.name);
    }
  }

  /** A stale default of a name with an implementation that cannot be read: none is found, although the name is
      implemented. */
  lemma {:induction false} StaleUnreadable(u: Tables, un: Id, s: Tables, name: string, id: Id)
    requires Integrity(u, un) && DefaultIs(u, name, id) && !Exists(u, s, id)
    requires Implemented(name, Both(u, s)) && !Readable(u, s, name)
    ensures !Findable(u, s, name) && Missing(u, s, name)
  {
    OutLed(u, un, s, name, id);
    hide Integrity, Findable, LeadsOut, InterfaceIds, Implemented, Readable;
  }

  lemma {:induction false} LocalImplements(t: Tables, next: Id, d: DefaultRow)
    requires Integrity(t, next) && d in t.defaults && d.interfaceId in InterfaceIds(t.interfaces)
    ensures ImplementedBy(d.interfaceName, d.interfaceId, t.interfaces)
  {
    hide ServicesOk, OwnersOk, Described, SameInterface, Lower, Populated;
    var i :| i in t.interfaces && i.id == d.interfaceId;
    assert Older(i.id, next);
  }

  lemma {:induction false} NotExternal(t: Tables, name: string, id: Id)
    requires AllLocal(t) && DefaultIs(t, name, id)
    ensures id in InterfaceIds(t.interfaces)
  {
    hide SameName;
  }

  /** A default of the user's own. */
  lemma {:induction false} OwnDefault(u: Tables, un: Id, s: Tables, name: string, d: Descriptor)
    requires Integrity(u, un) && DefaultLoads(u, name, d)
    ensures var m := d.(scope := UserScope);
      InScope(u, s, m) && SameName(m.interfaceName, name) && IsDefaultOf(u, s, u, name, m)
    ensures NotStale(u, s, name) && HasDefault(name, u.defaults) && Implemented(name, Both(u, s))
              && !HasExternal(name, u)
  {
    hide Integrity, Joined, Loaded, Lower;
    var x :| x in Joined(u) && d == Loaded(u, x) && DefaultIs(u, name, x.1.id);
    LoadedFacts(u, x);
    var e :| e in u.defaults && SameName(e.interfaceName, name) && e.interfaceId == x.1.id;
    UniqueNamed(u, un, e);
    var y: ScopedRow := (UserScope, x);
    assert d.(scope := UserScope) == LoadedIn(u, s, y) && y.1 in Joined(TablesOf(u, s, y.0));
    assert x.1 in Both(u, s);
    assert e !in ExternalDefaults(u);
  }

  /** A name whose default is an identifier of another database. */
  predicate HasExternal(name: string, u: Tables) {
    exists d | d in ExternalDefaults(u) :: SameName(d.interfaceName, name)
  }

  lemma {:induction false} ExternalNamed(u: Tables, name: string, id: Id)
    requires DefaultIs(u, name, id) && id !in InterfaceIds(u.interfaces)
    ensures HasExternal(name, u) && HasDefault(name, u.defaults)
  {
    hide SameName;
    var d :| d in u.defaults && SameName(d.interfaceName, name) && d.interfaceId == id;
    assert d in ExternalDefaults(u);
  }

  lemma {:induction false} NoExternal(u: Tables, name: string)
    ensures !HasDefault(name, u.defaults) ==> !HasExternal(name, u)
  {
    hide SameName;
  }

  lemma {:induction false} SystemOwn(u: Tables, s: Tables, sn: Id, name: string, d: Descriptor)
    requires Integrity(s, sn) && DefaultLoads(s, name, d)
    ensures var m := d.(scope := SystemScope);
      SameName(m.interfaceName, name) && IsDefaultOf(u, s, s, name, m)
    ensures HasDefault(name, s.defaults) && Implemented(name, s.interfaces)
  {
    hide Integrity, Joined, Loaded, Lower;
    var x :| x in Joined(s) && d == Loaded(s, x) && DefaultIs(s, name, x.1.id);
    LoadedFacts(s, x);
    var y: ScopedRow := (SystemScope, x);
    assert d.(scope := SystemScope) == LoadedIn(u, s, y) && y.1 in Joined(TablesOf(u, s, y.0));
  }

  /** An external default has a name, and the row it refers to implements that. */
  lemma {:induction false} LinkedName(u: Tables, un: Id, s: Tables, sn: Id, name: string, id: Id)
    requires Integrity(u, un) && Linked(u.defaults, un, s.interfaces, sn) && DefaultIs(u, name, id)
               && id !in InterfaceIds(u.interfaces)
    ensures name != ""
    ensures forall i | i in s.interfaces && i.id == id :: SameName(i.name, name)
    ensures forall e | e in u.defaults && SameName(e.interfaceName, name) :: e.interfaceId == id
  {
    var d :| d in u.defaults && SameName(d.interfaceName, name) && d.interfaceId == id;
    SameLength(d.interfaceName, name);
    ExternalOrigin(u, un, d);
    UniqueNamed(u, un, d);
    hide Integrity, Lower;
    assert LinkOk(d, s.interfaces, sn);
  }

  lemma {:induction false} LoadedId(t: Tables, id: Id)
    ensures forall d :: IdLoads(t, id, d) ==> id in InterfaceIds(t.interfaces)
  {
    hide Loaded;
  }

  /** An external default whose row is there. */
  lemma {:induction false} ExternalRead(u0: Tables, un: Id, s: Tables, sn: Id, u: Tables, name: string, id: Id,
      d: Descriptor)
    requires Integrity(u0, un) && Linked(u0.defaults, un, s.interfaces, sn) && DefaultIs(u0, name, id)
               && id !in InterfaceIds(u0.interfaces)
    requires IdLoads(s, id, d)
    ensures var m := d.(scope := SystemScope);
      InScope(u, s, m) && SameName(m.interfaceName, name)
        && (u == u0 ==> HasDefault(name, u.defaults) && IsDefaultOf(u, s, u, name, m))
    ensures Implemented(name, Both(u, s))
    ensures u == u0 || SettledBut(u, s, []) ==> NotStale(u, s, name)
  {
    LinkedName(u0, un, s, sn, name, id);
    hide Integrity, Linked, Joined, Loaded, Lower;
    var x :| x in Joined(s) && d == Loaded(s, x) && x.1.id == id;
    LoadedFacts(s, x);
    var y: ScopedRow := (SystemScope, x);
    assert d.(scope := SystemScope) == LoadedIn(u, s, y) && y.1 in Joined(TablesOf(u, s, y.0));
    assert x.1 in Both(u, s) && x.1.id in InterfaceIds(s.interfaces);
  }

  /** After a stale default was given up. */
  lemma {:induction false} StaleReset(u0: Tables, un: Id, u: Tables, s: Tables, name: string, id: Id,
      choice: Option<DefaultRow>)
    requires forall e | e in u0.defaults && SameName(e.interfaceName, name) :: e.interfaceId == id
    ensures (u == u0 || SettledBut(u, s, [])) && (choice.Some? ==> Exists(u, s, choice.value.interfaceId)) ==>
              NotStale(Reset(u, id, choice), s, name)
    ensures GoodReset(u, s, name, choice) ==> (choice.Some? <==> Implemented(name, Both(u, s)) && Readable(u, s, name))
  {
    ResetRows(u, id, choice);
    if choice.Some? && GoodReset(u, s, name, choice) {
      BestExists(u, s, name, choice.value.interfaceId);
    }
    hide Reset, SameName, Best, InterfaceIds, Implemented, Readable;
  }

  lemma {:induction false} ResetChosen(u: Tables, s: Tables, name: string, id: Id, choice: Option<DefaultRow>,
      d: Descriptor)
    requires choice.Some? && choice.value.interfaceName == d.interfaceName && SameName(d.interfaceName, name)
    requires LoadsAs(Reset(u, id, choice), s, choice.value.interfaceId, d)
    ensures var w := Reset(u, id, choice); HasDefault(name, w.defaults) && IsDefaultOf(w, s, w, name, d)
  {
    ResetRows(u, id, choice);
    hide Reset, Lower, Joined, Loaded;
    var w := Reset(u, id, choice);
    var e :| e in w.defaults && SameName(e.interfaceName, choice.value.interfaceName)
      && e.interfaceId == choice.value.interfaceId;
    assert DefaultIs(w, name, choice.value.interfaceId);
  }

  lemma {:induction false} Settled(u: Tables, s: Tables, name: string)
    ensures !HasDefault(name, u.defaults) || SettledBut(u, s, []) ==> NotStale(u, s, name)
  {
    hide SameName, Exists;
  }

  lemma {:induction false} ImplementedInEither(u: Tables, s: Tables, name: string)
    ensures Implemented(name, Both(u, s)) <==> Implemented(name, u.interfaces) || Implemented(name, s.interfaces)
    ensures InOrder(u) && Implemented(name, u.interfaces) ==> HasDefault(name, u.defaults)
  {
    hide Lower, Populated;
    if InOrder(u) && Implemented(name, u.interfaces) {
      var i :| i in u.interfaces && SameName(i.name, name);
      var d :| d in u.defaults && SameName(d.interfaceName, i.name);
    }
  }
}
