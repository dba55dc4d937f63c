/** Unregistering a service undoes registering it, in the tables of
  src/serviceframework/servicedatabase.cpp. */
module ServiceUndo {
  import opened Text
  import opened Version
  import opened Descriptor
  import opened ServiceFilter
  import opened ServiceTables
  import opened ServiceUpdates

  ghost predicate NewName(t: Tables, name: string) {
    forall r | r in t.services :: !SameName(r.name, name)
  }

  /** No interface name of the service is implemented already without having a default. */
  ghost predicate NoBareName(t: Tables, s: Results) {
    forall k | 0 <= k < |s.latest| ::
      HasDefault(s.latest[k].interfaceName, t.defaults) || !Implemented(s.latest[k].interfaceName, t.interfaces)
  }

  /** The identifiers of the interfaces of a service that was just registered. */
  ghost predicate NewIds(u: Tables, next: Id, n: nat) {
    forall id :: id in InterfacesOf(u, {next}) <==>
      id.origin == next.origin && next.number < id.number <= next.number + n
  }

  lemma UndoServices(t: Tables, s: Results, next: Id)
    requires Integrity(t, next) && ServiceOk(s) && NewName(t, s.name)
    ensures NamedServices(Registered(t, s, next), s.name) == {next}
    ensures WithoutService(Registered(t, s, next), s.name).services == t.services
  {
    hide StoredLocation, InterfacesOk, OwnersOk, Described, DefaultsOk, NewDefaults, NewInterfaces, NewProperties,
      SameDescriptor, Lower, InterfacesOf;
    var u := Registered(t, s, next);
    assert u.services == t.services + {ServiceRow(next, s.name, StoredLocation(s))};
    hide Registered;
    assert forall r :: r in WithoutService(u, s.name).services <==> r in t.services;
  }

  lemma OldInterfaces(t: Tables, next: Id)
    requires Integrity(t, next)
    ensures forall i | i in t.interfaces :: i.serviceId != next && Older(i.id, next)
  {
    hide OwnersOk, Described, DefaultsOk, SameName, SameInterface;
    NewId(t.services, t.interfaces, next);
  }

  lemma {:induction false} NewInterfaceIds(ds: seq<Descriptor>, next: Id, n: nat, id: Id)
    requires n <= |ds|
    ensures id in InterfaceIds(NewInterfaces(ds, next, n)) <==>
              id.origin == next.origin && next.number < id.number <= next.number + n
  {
    if id.origin == next.origin && next.number < id.number <= next.number + n {
      var i := RowOf(ds[id.number - next.number - 1], id, next);
      NewInterfaceRow(ds, next, n, i);
      assert i in NewInterfaces(ds, next, n);
    }
    if id in InterfaceIds(NewInterfaces(ds, next, n)) {
      var i :| i in NewInterfaces(ds, next, n) && i.id == id;
      NewInterfaceRow(ds, next, n, i);
    }
    hide NewInterfaces;
  }

  lemma UndoInterfaces(t: Tables, s: Results, next: Id)
    requires Integrity(t, next) && ServiceOk(s)
    requires NamedServices(Registered(t, s, next), s.name) == {next}
    ensures WithoutService(Registered(t, s, next), s.name).interfaces == t.interfaces
    ensures NewIds(Registered(t, s, next), next, |s.interfaces|)
  {
    hide StoredLocation, Integrity, NewDefaults, NewInterfaces, NewProperties, ServiceOk, Lower;
    var u, n := Registered(t, s, next), |s.interfaces|;
    OldInterfaces(t, next);
    assert u.interfaces == t.interfaces + NewInterfaces(s.interfaces, next, n);
    forall i | i in NewInterfaces(s.interfaces, next, n)
      ensures i.serviceId == next
    {
      NewInterfaceRow(s.interfaces, next, n, i);
    }
    hide Registered;
    forall id
      ensures id in InterfacesOf(u, {next}) <==> id.origin == next.origin && next.number < id.number <= next.number + n
    {
      NewInterfaceIds(s.interfaces, next, n, id);
      if id in InterfaceIds(NewInterfaces(s.interfaces, next, n)) {
        var i :| i in NewInterfaces(s.interfaces, next, n) && i.id == id;
        assert i in u.interfaces;
      }
    }
    assert forall i :: i in WithoutService(u, s.name).interfaces <==> i in t.interfaces;
  }

  lemma UndoProperties(t: Tables, s: Results, next: Id)
    requires Integrity(t, next) && ServiceOk(s)
    requires NamedServices(Registered(t, s, next), s.name) == {next}
    requires NewIds(Registered(t, s, next), next, |s.interfaces|)
    ensures WithoutService(Registered(t, s, next), s.name).serviceProps == t.serviceProps
    ensures WithoutService(Registered(t, s, next), s.name).interfaceProps == t.interfaceProps
  {
    hide StoredLocation, NewDefaults, NewInterfaces, NewProperties, ServiceOk, Lower, InterfacesOf, NamedServices,
      InterfacesOk, DefaultsOk, Described;
    var u, n := Registered(t, s, next), |s.interfaces|;
    var w := WithoutService(u, s.name);
    NewId(t.services, t.interfaces, next);
    OldInterfaces(t, next);
    forall p | p in NewProperties(s.interfaces, next, n)
      ensures next.number < p.owner.number <= next.number + n && p.owner.origin == next.origin
    {
      NewOwner(s.interfaces, next, n, p);
    }
    assert forall p :: p in w.serviceProps <==> p in t.serviceProps;
    forall p | p in t.interfaceProps
      ensures Older(p.owner, next)
    {
      var i :| i in t.interfaces && i.id == p.owner;
    }
    assert forall p :: p in w.interfaceProps <==> p in t.interfaceProps;
  }

  lemma {:induction false} OldDefaultsStay(t: Tables, next: Id, d: DefaultRow)
    requires Integrity(t, next) && d in t.defaults
    ensures d.interfaceId.origin == next.origin ==> Older(d.interfaceId, next)
  {
    hide OwnersOk, Described, ServicesOk, SameName, SameInterface;
    if d.interfaceId.origin == next.origin {
      assert ImplementedBy(d.interfaceName, d.interfaceId, t.interfaces);
      var i :| i in t.interfaces && i.id == d.interfaceId;
    }
  }

  lemma {:induction false} NewDefaultsGo(t: Tables, s: Results, next: Id, e: DefaultRow)
    requires ServiceOk(s) && NewIds(Registered(t, s, next), next, |s.interfaces|)
    requires e in NewDefaults(s.interfaces, s.latest, next, t.defaults, |s.latest|)
    ensures e.interfaceId in InterfacesOf(Registered(t, s, next), {next}) && !HasDefault(e.interfaceName, t.defaults)
    ensures OfLatest(s, e.interfaceName)
  {
    LatestAreInterfaces(s);
    hide ServiceOk, NewDefaults, NewInterfaces, InterfacesOf, HasDefault, Registered, NewIds, InterfaceIds, AllIn,
      OfLatest, WithService;
    NewDefaultLocal(t, s, next, e);
    NewInterfaceIds(s.interfaces, next, |s.interfaces|, e.interfaceId);
    NewIdIn(Registered(t, s, next), next, |s.interfaces|, e.interfaceId);
  }

  lemma NewIdIn(u: Tables, next: Id, n: nat, id: Id)
    requires NewIds(u, next, n)
    ensures id in InterfacesOf(u, {next}) <==> id.origin == next.origin && next.number < id.number <= next.number + n
  {
    hide InterfacesOf;
  }

  /** Without bare names no new default finds another implementation. */
  lemma {:induction false} NothingChosen(t: Tables, s: Results, next: Id, chosen: Choice, e: DefaultRow)
    requires ServiceOk(s) && NoBareName(t, s) && NewIds(Registered(t, s, next), next, |s.interfaces|)
    requires forall n | n in chosen :: Best(chosen[n], n, t.interfaces)
    requires e in NewDefaults(s.interfaces, s.latest, next, t.defaults, |s.latest|)
    ensures Lower(e.interfaceName) !in chosen
  {
    NewDefaultsGo(t, s, next, e);
    hide ServiceOk, NewDefaults, InterfacesOf, HasDefault, Registered, Best, Lower, Implemented;
    var k :| 0 <= k < |s.latest| && s.latest[k].interfaceName == e.interfaceName;
    assert !Implemented(e.interfaceName, t.interfaces);
    if Lower(e.interfaceName) in chosen {
      BestImplements(chosen[Lower(e.interfaceName)], e.interfaceName, t.interfaces);
      assert false;
    }
  }

  lemma {:induction false} UndoneDefaults(t: Tables, s: Results, next: Id, chosen: Choice)
    requires Integrity(t, next) && ServiceOk(s) && NoBareName(t, s)
               && GoodChoice(Registered(t, s, next), s.name, chosen)
    requires NamedServices(Registered(t, s, next), s.name) == {next}
               && NewIds(Registered(t, s, next), next, |s.interfaces|)
    requires WithoutService(Registered(t, s, next), s.name).interfaces == t.interfaces
    ensures Reelected(Registered(t, s, next), s.name, chosen) == t.defaults
  {
    hide Registered, NewDefaults, InterfacesOf, GoodChoice, WithoutService, Best, Reelected, Integrity, ServiceOk,
      NoBareName, NewIds, NamedServices, Comes, AllIn, Lower;
    RegisteredDefaults(t, s, next);
    var u := Registered(t, s, next);
    var gone, new0 := InterfacesOf(u, {next}), NewDefaults(s.interfaces, s.latest, next, t.defaults, |s.latest|);
    ChosenAreBest(u, s.name, chosen);
    ReelectedRows(u, s.name, chosen);
    forall d | d in t.defaults
      ensures d.interfaceId !in gone
    {
      OldDefaultGone(t, next, u, |s.interfaces|, d);
    }
    forall e | e in new0
      ensures e.interfaceId in gone && Lower(e.interfaceName) !in chosen
    {
      NewDefaultsGo(t, s, next, e);
      NothingChosen(t, s, next, chosen, e);
    }
    forall e
      ensures e in Reelected(u, s.name, chosen) <==> e in t.defaults
    {
      UndoneRow(u, t.defaults, new0, gone, chosen, s.name, e);
    }
  }

  lemma {:induction false} RegisteredDefaults(t: Tables, s: Results, next: Id)
    requires ServiceOk(s)
    ensures s.interfaces != [] && AllIn(s.latest, s.interfaces)
    ensures Registered(t, s, next).defaults ==
              t.defaults + NewDefaults(s.interfaces, s.latest, next, t.defaults, |s.latest|)
  {
    LatestAreInterfaces(s);
    hide NewDefaults, WithService, AllIn;
  }

  lemma {:induction false} ChosenAreBest(u: Tables, name: string, chosen: Choice)
    requires GoodChoice(u, name, chosen)
    ensures forall n | n in chosen :: Best(chosen[n], n, WithoutService(u, name).interfaces)
  {
    hide Best, WithoutService;
  }

  lemma {:induction false} OldDefaultGone(t: Tables, next: Id, u: Tables, n: nat, d: DefaultRow)
    requires Integrity(t, next) && d in t.defaults && NewIds(u, next, n)
    ensures d.interfaceId !in InterfacesOf(u, {next})
  {
    hide Integrity, InterfacesOf, NewIds;
    OldDefaultsStay(t, next, d);
    NewIdIn(u, next, n, d.interfaceId);
  }

  lemma {:induction false} UndoneRow(u: Tables, before: set<DefaultRow>, new0: set<DefaultRow>, gone: set<Id>,
      chosen: Choice, name: string, e: DefaultRow)
    requires u.defaults == before + new0 && (forall d | d in before :: d.interfaceId !in gone)
    requires forall d | d in new0 :: d.interfaceId in gone && Lower(d.interfaceName) !in chosen
    requires e in Reelected(u, name, chosen) <==> exists d :: d in u.defaults && Comes(e, d, gone, chosen)
    ensures e in Reelected(u, name, chosen) <==> e in before
  {
    hide Reelected, Lower;
    if e in before {
      assert Comes(e, e, gone, chosen);
    }
  }

  lemma {:induction false} KeptDefaults(t: Tables, s: Results, next: Id, chosen: Choice)
    requires Integrity(t, next) && ServiceOk(s) && !NoBareName(t, s)
               && GoodChoice(Registered(t, s, next), s.name, chosen)
    requires NamedServices(Registered(t, s, next), s.name) == {next}
               && NewIds(Registered(t, s, next), next, |s.interfaces|)
    requires WithoutService(Registered(t, s, next), s.name).interfaces == t.interfaces
    ensures Reelected(Registered(t, s, next), s.name, chosen) != t.defaults
  {
    LatestAreInterfaces(s);
    var u := Registered(t, s, next);
    var gone := InterfacesOf(u, {next});
    assert u.defaults == t.defaults + NewDefaults(s.interfaces, s.latest, next, t.defaults, |s.latest|);
    ReelectedRows(u, s.name, chosen);
    assert forall d | d in u.defaults && d.interfaceId in gone && Implemented(d.interfaceName, t.interfaces) ::
      Lower(d.interfaceName) in chosen;
    hide Registered, Reelected, WithoutService, InterfacesOf, NamedServices, NewDefaults, Integrity, ServiceOk, Best,
      Lower, Implemented, NewIds, GoodChoice;
    var k :| 0 <= k < |s.latest| && !HasDefault(s.latest[k].interfaceName, t.defaults)
      && Implemented(s.latest[k].interfaceName, t.interfaces);
    var e := NewDefault(s, next, t.defaults, |s.latest|, k);
    NewDefaultsGo(t, s, next, e);
    assert e in u.defaults && Lower(e.interfaceName) in chosen;
    var moved := DefaultRow(e.interfaceName, chosen[Lower(e.interfaceName)]);
    assert Comes(moved, e, gone, chosen);
    assert moved in Reelected(u, s.name, chosen) && SameName(moved.interfaceName, s.latest[k].interfaceName);
  }

  /** What the new defaults become. */
  lemma UndoDefaults(t: Tables, s: Results, next: Id, chosen: Choice)
    requires Integrity(t, next) && ServiceOk(s) && GoodChoice(Registered(t, s, next), s.name, chosen)
    requires NamedServices(Registered(t, s, next), s.name) == {next}
               && NewIds(Registered(t, s, next), next, |s.interfaces|)
    requires WithoutService(Registered(t, s, next), s.name).interfaces == t.interfaces
    ensures Reelected(Registered(t, s, next), s.name, chosen) == t.defaults <==> NoBareName(t, s)
  {
    if NoBareName(t, s) {
      UndoneDefaults(t, s, next, chosen);
    } else {
      KeptDefaults(t, s, next, chosen);
    }
  }

  /** Registering a service under a new name and unregistering it again gives all five tables back, exactly
      if no interface of the service had implementations but no default. */
  lemma Undo(t: Tables, s: Results, next: Id, chosen: Choice)
    requires Integrity(t, next) && Registrable(t, s) && NewName(t, s.name)
    requires GoodChoice(Registered(t, s, next), s.name, chosen)
    ensures Unregistered(Registered(t, s, next), s.name, chosen) == t <==> NoBareName(t, s)
    ensures AllDefaulted(t) ==> Unregistered(Registered(t, s, next), s.name, chosen) == t
  {
    UndoServices(t, s, next);
    UndoInterfaces(t, s, next);
    UndoProperties(t, s, next);
    UndoDefaults(t, s, next, chosen);
    if AllDefaulted(t) {
      DefaultedNames(t, s);
    }
    hide Integrity, Registered, WithoutService, Reelected, NoBareName, AllDefaulted, GoodChoice, Registrable;
  }

  /** Under any name: unregistering undoes registering exactly if the name was new and no interface of the
      service was bare. It deletes all services of the name. */
  lemma {:induction false} UndoExactly(t: Tables, s: Results, next: Id, chosen: Choice)
    requires Integrity(t, next) && Registrable(t, s) && GoodChoice(Registered(t, s, next), s.name, chosen)
    ensures Unregistered(Registered(t, s, next), s.name, chosen) == t <==> NewName(t, s.name) && NoBareName(t, s)
  {
    if NewName(t, s.name) {
      Undo(t, s, next, chosen);
    } else {
      hide Integrity, Registered, WithoutService, Reelected, NoBareName, GoodChoice, Registrable, SameName;
      var r :| r in t.services && SameName(r.name, s.name);
      Unnamed(Registered(t, s, next), s.name, chosen, r);
    }
  }

  /** One service. */
  function OneService(): Tables {
    Tables({ServiceRow(Id(0, 0), "s", "p")}, {InterfaceRow(Id(0, 1), Id(0, 0), "f", 1, 0)},
           {Property(Id(0, 0), DESCRIPTION_KEY, "")}, {Property(Id(0, 1), DESCRIPTION_KEY, "")},
           {DefaultRow("f", Id(0, 1))})
  }

  /** Another one of the same name. */
  function Namesake(): Results {
    var g := Descriptor("g", "s", 1, 0, NO_ATTRIBUTES, map[], UserScope);
    Results("s", "q", "", [g], [g])
  }

  /** A case in which it does not: the namesake can be registered, and unregistering it deletes the service that
      was there before. */
  lemma {:induction false} NamesakeUndone()
    ensures Integrity(OneService(), Id(0, 2)) && AllDefaulted(OneService()) && Registrable(OneService(), Namesake())
    ensures var u := Registered(OneService(), Namesake(), Id(0, 2));
      && GoodChoice(u, "s", map[]) && Unregistered(u, "s", map[]).services == {}
      && Unregistered(u, "s", map[]) != OneService()
  {
    OneServiceSound();
    NamesakeRegistrable();
    NamesakeGone();
    hide Integrity, AllDefaulted, Registrable, Registered, Unregistered, GoodChoice;
    assert ServiceRow(Id(0, 0), "s", "p") in OneService().services;
  }

  lemma {:induction false} OneServiceSound()
    ensures Integrity(OneService(), Id(0, 2)) && AllDefaulted(OneService())
  {
    hide Lower;
    var t := OneService();
    assert ServiceRow(Id(0, 0), "s", "p") in t.services;
    assert Property(Id(0, 0), DESCRIPTION_KEY, "") in t.serviceProps;
    assert InterfaceRow(Id(0, 1), Id(0, 0), "f", 1, 0) in t.interfaces && DefaultRow("f", Id(0, 1)) in t.defaults;
  }

  lemma {:induction false} NamesakeRegistrable()
    ensures Registrable(OneService(), Namesake())
  {
    var s := Namesake();
    assert Lower("p")[0] == 'p' && Lower("q")[0] == 'q' && Lower("f")[0] == 'f' && Lower("g")[0] == 'g';
    hide Lower;
    assert SameName(s.latest[0].interfaceName, "g");
  }

  lemma {:induction false} NamesakeGone()
    requires ServiceOk(Namesake())
    ensures var u := Registered(OneService(), Namesake(), Id(0, 2));
      GoodChoice(u, "s", map[]) && Unregistered(u, "s", map[]).services == {}
  {
    var t, s, next := OneService(), Namesake(), Id(0, 2);
    var u := Registered(t, s, next);
    assert NewInterfaces(s.interfaces, next, 0) == {};
    assert NewInterfaces(s.interfaces, next, 1) == {RowOf(s.interfaces[0], Id(0, 3), next)};
    hide NewInterfaces, NewProperties, NewDefaults, Reelected, Lower;
    assert ServiceRow(Id(0, 0), "s", "p") in u.services && ServiceRow(next, "s", "q") in u.services;
    assert NamedServices(u, "s") == {Id(0, 0), next};
    assert WithoutService(u, "s").services == {};
    assert WithoutService(u, "s").interfaces == {};
  }

  lemma {:induction false} Unnamed(u: Tables, name: string, chosen: Choice, r: ServiceRow)
    requires SameName(r.name, name)
    ensures r !in Unregistered(u, name, chosen).services
  {
    hide Lower, Reelected, InterfacesOf, NamedServices;
  }

  lemma DefaultedNames(t: Tables, s: Results)
    requires AllDefaulted(t)
    ensures NoBareName(t, s)
  {
    hide Lower;
    forall k | 0 <= k < |s.latest| && Implemented(s.latest[k].interfaceName, t.interfaces)
      ensures HasDefault(s.latest[k].interfaceName, t.defaults)
    {
      var i :| i in t.interfaces && SameName(i.name, s.latest[k].interfaceName);
      assert HasDefault(i.name, t.defaults);
      var d :| d in t.defaults && SameName(d.interfaceName, i.name);
      assert SameName(d.interfaceName, s.latest[k].interfaceName);
    }
  }
}
