/** What the service metadata parser makes of a service and of a document with one: the tags of the service and its
  interfaces in any order. */
module ServiceXmlParts {
  import opened Text
  import opened Version
  import opened Descriptor
  import opened XmlReader
  import opened ServiceXml
  import opened ServiceXmlItems

  /** What stands in a service: a tag with a text, or an interface. */
  datatype Part =
    | Plain(item: Item)
    | Interface(gap: seq<Token>, attributes: map<string, string>, items: seq<Item>, end: seq<Token>)

  predicate WellWritten(parts: seq<Part>) {
    forall p | p in parts ::
      match p
      case Plain(i) => Blank(i.gap) && Blank(i.content) && i.tag != "interface"
      case Interface(gap, _, items, end) => Blank(gap) && Flat(items) && Blank(end)
  }

  function PartTokens(p: Part, rest: seq<Token>): seq<Token> {
    match p
    case Plain(i) => i.gap + ElementTokens(i, rest)
    case Interface(gap, attributes, items, end) =>
      gap + ([StartElement("interface", attributes)] + ItemsTokens(items, end + ([EndElement("interface")] + rest)))
  }

  function PartsTokens(parts: seq<Part>, rest: seq<Token>): seq<Token> {
    if parts == [] then rest else PartTokens(parts[0], PartsTokens(parts[1..], rest))
  }

  // ---------------------------------------------------------------------------------------------
  // The loop over a service
  // ---------------------------------------------------------------------------------------------

  /** The loop over a service skips what is blank. */
  lemma {:induction false} ServiceGap(s: Service, gap: seq<Token>, rest: seq<Token>, token: Token)
    requires !s.failed && Blank(gap) && !token.EndDocument? && !token.Invalid?
    ensures ServiceLoop(s, Reader(token, gap + rest)) == ServiceLoop(s, Reader(Other, rest))
    decreases |gap|
  {
    if gap == [] {
      assert gap + rest == rest;
      hide ServiceTag;
    } else {
      var all := gap + rest;
      assert all[0] == gap[0] && gap[0] in gap && all[1..] == gap[1..] + rest;
      ServiceGap(s, gap[1..], rest, gap[0]);
      hide ElementText, InterfaceElement;
    }
  }

  /** What a part changes. */
  ghost function PartRead(s: Service, p: Part): Service {
    match p
    case Plain(i) =>
      var text := TextOf(i.content);
      if i.tag == "name" then s.(m := s.m.(serviceName := text), names := s.names + 1)
      else if i.tag == "description" then
        s.(m := s.m.(serviceDescription := text), descriptions := s.descriptions + 1)
      else if i.tag == "filepath" then Located(s.(filePaths := s.filePaths + 1), text)
      else if i.tag == "ipcaddress" then
        if GreaterThan(s.m.xmlVersion, "1.0") then Located(s.(ipcAddresses := s.ipcAddresses + 1), text)
        else Fail(s, UnsupportedIpc)
      else if i.tag == "version" then s
      else Fail(s, ParseService)
    case Interface(_, _, items, _) =>
      var d := InterfaceGiven(items);
      match InterfaceError(items)
      case Some(e) => Fail(s, e)
      case None => if Ident(d) in s.m.duplicates then Fail(s, DuplicatedInterface) else s.(m := Added(s.m, d))
  }

  lemma {:induction false} PlainRead(s: Service, i: Item, rest: seq<Token>)
    requires !s.failed && Blank(i.content) && i.tag != "interface"
    ensures var (s', r') :=
        ServiceTag(s, Reader(StartElement(i.tag, i.attributes), i.content + ([EndElement(i.tag)] + rest)));
      s' == PartRead(s, Plain(i)) && (!s'.failed ==> r' == Reader(EndElement(i.tag), rest))
  {
    ContentRead(i.content, i.tag, rest, StartElement(i.tag, i.attributes));
    hide ElementText, GreaterThan, StartsWith, InterfaceElement;
  }

  lemma {:induction false} InterfacePartRead(s: Service, p: Part, rest: seq<Token>)
    requires !s.failed && p.Interface? && Flat(p.items) && Blank(p.end)
    ensures var (s', r') := ServiceTag(s, Reader(StartElement("interface", p.attributes),
        ItemsTokens(p.items, p.end + ([EndElement("interface")] + rest))));
      s' == PartRead(s, p) && (!s'.failed ==> r' == Reader(EndElement("interface"), rest))
  {
    InterfaceMeans(s.m, p.attributes, p.items, p.end, rest);
    hide InterfaceElement, ElementText, ItemsTokens, Added, Ident, InterfaceError, InterfaceGiven;
  }

  lemma {:induction false} PartStep(s: Service, p: Part, rest: seq<Token>)
    requires !s.failed && WellWritten([p])
    ensures var res, s' := ServiceLoop(s, Reader(Other, PartTokens(p, rest))), PartRead(s, p);
      if s'.failed then res.0 == s' else res == ServiceLoop(s', Reader(Other, rest))
  {
    hide ServiceTag, PartRead;
    assert p in [p];
    var gap, tag, attributes, inner :=
      if p.Plain? then p.item.gap else p.gap,
      if p.Plain? then p.item.tag else "interface",
      if p.Plain? then p.item.attributes else p.attributes,
      if p.Plain? then p.item.content + ([EndElement(p.item.tag)] + rest)
      else ItemsTokens(p.items, p.end + ([EndElement("interface")] + rest));
    var all := [StartElement(tag, attributes)] + inner;
    ServiceGap(s, gap, all, Other);
    assert all[1..] == inner;
    if p.Plain? {
      PlainRead(s, p.item, rest);
    } else {
      InterfacePartRead(s, p, rest);
    }
    var (s', r') := ServiceTag(s, Reader(all[0], inner));
    if !s'.failed {
      ServiceGap(s', [], rest, r'.token);
      assert [] + rest == rest;
    }
  }

  function NewService(version: string): Service {
    Service(CLEARED.(xmlVersion := version), 0, 0, 0, 0, false)
  }

  /** What a list of parts comes to: reading stops at the first error. */
  ghost function PartsRead(parts: seq<Part>, version: string): Service {
    if parts == [] then NewService(version)
    else
      var s := PartsRead(parts[..|parts| - 1], version);
      if s.failed then s else PartRead(s, parts[|parts| - 1])
  }

  lemma {:induction false} PartsStep(parts: seq<Part>, version: string, k: nat, rest: seq<Token>)
    requires k <= |parts| && WellWritten(parts)
    ensures var s, s' := PartsRead(parts[..k], version), PartsRead(parts, version);
      !s.failed ==>
        var res := ServiceLoop(s, Reader(Other, PartsTokens(parts[k..], rest)));
        if s'.failed then res.0 == s' else res == ServiceLoop(s', Reader(Other, rest))
    ensures PartsRead(parts[..k], version).failed ==> PartsRead(parts, version) == PartsRead(parts[..k], version)
    decreases |parts| - k
  {
    hide PartRead, ServiceLoop, PartTokens;
    if k == |parts| {
      assert parts[..k] == parts && parts[k..] == [];
    } else {
      PartsStep(parts, version, k + 1, rest);
      assert parts[..k + 1][..k] == parts[..k] && parts[..k + 1][k] == parts[k];
      assert parts[k..][0] == parts[k] && parts[k..][1..] == parts[k + 1..];
      assert parts[k] in parts;
      if !PartsRead(parts[..k], version).failed {
        PartStep(PartsRead(parts[..k], version), parts[k], PartsTokens(parts[k + 1..], rest));
      }
    }
  }

  lemma {:induction false} AllParts(parts: seq<Part>, version: string, end: seq<Token>, rest: seq<Token>, token: Token)
    requires WellWritten(parts) && Blank(end) && !token.EndDocument? && !token.Invalid?
    ensures var s := PartsRead(parts, version);
      var res := ServiceLoop(NewService(version),
        Reader(token, PartsTokens(parts, end + ([EndElement("service")] + rest))));
      res.0 == s && (!s.failed ==> res.1 == Reader(EndElement("service"), rest))
  {
    var last := [EndElement("service")] + rest;
    var s, all := PartsRead(parts, version), PartsTokens(parts, end + last);
    PartsStep(parts, version, 0, end + last);
    assert parts[..0] == [] && parts[0..] == parts && [] + all == all;
    ServiceGap(NewService(version), [], all, token);
    hide PartsRead, PartsTokens, ServiceTag;
    if !s.failed {
      ServiceGap(s, end, last, Other);
      assert last[1..] == rest;
    }
  }

  // ---------------------------------------------------------------------------------------------
  // What the parts say
  // ---------------------------------------------------------------------------------------------

  /** The tags of a service that hold text. */
  function Plains(parts: seq<Part>): seq<Item> {
    if parts == [] then []
    else
      var items, last := Plains(parts[..|parts| - 1]), parts[|parts| - 1];
      if last.Plain? then items + [last.item] else items
  }

  function InterfacesGiven(parts: seq<Part>): seq<Descriptor> {
    if parts == [] then []
    else
      var ds, last := InterfacesGiven(parts[..|parts| - 1]), parts[|parts| - 1];
      if last.Interface? then ds + [InterfaceGiven(last.items)] else ds
  }

  /** The texts that give a location, as the path of a plug-in or as an address. */
  function Locations(items: seq<Item>): seq<string> {
    if items == [] then []
    else
      var texts, last := Locations(items[..|items| - 1]), items[|items| - 1];
      if last.tag == "filepath" || last.tag == "ipcaddress" then texts + [TextOf(last.content)] else texts
  }

  predicate Identified(p: Part, ident: string) {
    p.Interface? && Ident(InterfaceGiven(p.items)) == ident
  }

  /** An interface among these has this identifier. */
  predicate Taken(parts: seq<Part>, ident: string) {
    exists p :: p in parts && Identified(p, ident)
  }

  /** What is wrong with a part of a service as it stands, or because of those before it. `addresses` is whether the
      document may give one. */
  ghost function PartOffence(before: seq<Part>, p: Part, addresses: bool): Option<Error> {
    match p
    case Plain(i) =>
      if i.tag == "filepath" then if StartsWith(TextOf(i.content), IPC_PREFIX) then Some(InvalidFilePath) else None
      else if i.tag == "ipcaddress" then
        if !addresses then Some(UnsupportedIpc)
        else if StartsWith(TextOf(i.content), IPC_PREFIX) then Some(InvalidFilePath) else None
      else if i.tag == "name" || i.tag == "description" || i.tag == "version" then None
      else Some(ParseService)
    case Interface(_, _, items, _) =>
      if InterfaceError(items).Some? then InterfaceError(items)
      else if Taken(before, Ident(InterfaceGiven(items))) then Some(DuplicatedInterface)
      else None
  }

  ghost predicate FirstPartOffence(parts: seq<Part>, addresses: bool, k: nat) {
    && k < |parts| && PartOffence(parts[..k], parts[k], addresses).Some?
    && forall j: nat | j < k :: PartOffence(parts[..j], parts[j], addresses).None?
  }

  ghost predicate InoffensiveParts(parts: seq<Part>, addresses: bool) {
    forall k: nat | k < |parts| :: PartOffence(parts[..k], parts[k], addresses).None?
  }

  /** A plug-in's path and an address are both given. */
  predicate BothGiven(parts: seq<Part>) {
    Texts(Plains(parts), "filepath") != [] && Texts(Plains(parts), "ipcaddress") != []
  }

  /** The error of a service: that of its first offending part; or else what is missing, or there twice. Two kinds of
      location among what is read is an error that covers all these. */
  ghost function ServiceError(parts: seq<Part>, addresses: bool): Option<Error> {
    if k: nat :| FirstPartOffence(parts, addresses, k) then
      if addresses && BothGiven(parts[..k + 1]) then Some(MultipleServiceTypes)
      else PartOffence(parts[..k], parts[k], addresses)
    else
      var items := Plains(parts);
      if BothGiven(parts) then Some(MultipleServiceTypes)
      else if LastOr(Texts(items, "name"), "") == "" then Some(NoServiceName)
      else if LastOr(Locations(items), "") == "" then Some(NoServicePath)
      else if |Texts(items, "name")| > 1 || |Texts(items, "description")| > 1 || |Texts(items, "filepath")| > 1
        || |Texts(items, "ipcaddress")| > 1 then Some(DuplicatedTag)
      else if InterfacesGiven(parts) == [] then Some(NoServiceInterface)
      else None
  }

  // ---------------------------------------------------------------------------------------------
  // What is read is what they say
  // ---------------------------------------------------------------------------------------------

  /** What is known of a service after these parts, none of which offended. */
  ghost predicate Tallied(s: Service, parts: seq<Part>, version: string) {
    && !s.failed && s.m.latestError == NO_ERROR && s.m.xmlVersion == version && s.m.serviceType == Plugin
    && TextsTallied(s, Plains(parts), version)
    && s.m.interfaces == InterfacesGiven(parts) && forall x :: x in s.m.duplicates <==> Taken(parts, x)
  }

  ghost predicate TextsTallied(s: Service, items: seq<Item>, version: string) {
    && s.m.serviceName == LastOr(Texts(items, "name"), "")
    && s.m.serviceLocation == LastOr(Locations(items), "")
    && s.m.serviceDescription == LastOr(Texts(items, "description"), "")
    && s.names == |Texts(items, "name")| && s.descriptions == |Texts(items, "description")|
    && s.filePaths == |Texts(items, "filepath")| && s.ipcAddresses == |Texts(items, "ipcaddress")|
    && (s.ipcAddresses > 0 ==> GreaterThan(version, "1.0"))
  }

  /** What is known of it after the first that did. */
  ghost predicate Offended(s: Service, parts: seq<Part>, addresses: bool, e: Option<Error>) {
    && s.failed && Some(s.m.latestError) == e && s.m.serviceType == Plugin
    && (s.filePaths > 0 && s.ipcAddresses > 0 <==> addresses && BothGiven(parts))
  }

  lemma {:induction false} OneMore(before: seq<Part>, p: Part)
    ensures var parts := before + [p];
      && Plains(parts) == (if p.Plain? then Plains(before) + [p.item] else Plains(before))
      && InterfacesGiven(parts) ==
         (if p.Interface? then InterfacesGiven(before) + [InterfaceGiven(p.items)] else InterfacesGiven(before))
      && forall x :: Taken(parts, x) <==>
                     Taken(before, x) || (p.Interface? && x == Ident(InterfaceGiven(p.items)))
  {
    hide InterfaceGiven, Ident;
    var parts := before + [p];
    assert parts[..|before|] == before;
    forall x
      ensures Taken(parts, x) <==> Taken(before, x) || (p.Interface? && x == Ident(InterfaceGiven(p.items)))
    {
      assert Identified(p, x) ==> p in parts;
      if q :| q in before && Identified(q, x) {
        assert q in parts;
      }
    }
  }

  lemma {:induction false} TextsStep(s: Service, items: seq<Item>, i: Item, version: string)
    requires TextsTallied(s, items, version) && s.m.xmlVersion == version
    ensures var s', all := PartRead(s, Plain(i)), items + [i];
      && (!s'.failed ==> TextsTallied(s', all, version))
      && (s'.failed ==> (s'.filePaths > 0 && s'.ipcAddresses > 0 <==>
            GreaterThan(version, "1.0") && Texts(all, "filepath") != [] && Texts(all, "ipcaddress") != []))
  {
    assert (items + [i])[..|items|] == items;
    hide GreaterThan, StartsWith, TextOf;
  }

  lemma {:induction false} PartTallied(s: Service, before: seq<Part>, p: Part, version: string)
    requires Tallied(s, before, version)
    ensures var s', addresses := PartRead(s, p), GreaterThan(version, "1.0");
      var e := PartOffence(before, p, addresses);
      if e.None? then Tallied(s', before + [p], version) else Offended(s', before + [p], addresses, e)
  {
    hide PartRead, PartOffence, Tallied, Offended;
    if p.Plain? {
      PlainTallied(s, before, p.item, version);
    } else {
      InterfaceTallied(s, before, p, version);
    }
  }

  lemma {:induction false} PlainTallied(s: Service, before: seq<Part>, i: Item, version: string)
    requires Tallied(s, before, version)
    ensures var p := Plain(i);
      var s', addresses := PartRead(s, p), GreaterThan(version, "1.0");
      var e := PartOffence(before, p, addresses);
      if e.None? then Tallied(s', before + [p], version) else Offended(s', before + [p], addresses, e)
  {
    hide Plains, InterfacesGiven, GreaterThan, StartsWith, TextOf, Texts, Locations, TextsTallied, Taken, LastOr, Ident,
      InterfaceGiven;
    OneMore(before, Plain(i));
    TextsStep(s, Plains(before), i, version);
  }

  lemma {:induction false} InterfaceTallied(s: Service, before: seq<Part>, p: Part, version: string)
    requires p.Interface? && Tallied(s, before, version)
    ensures var s', addresses := PartRead(s, p), GreaterThan(version, "1.0");
      var e := PartOffence(before, p, addresses);
      if e.None? then Tallied(s', before + [p], version) else Offended(s', before + [p], addresses, e)
  {
    hide Plains, InterfacesGiven, Locations, GreaterThan, InterfaceGiven, InterfaceError, Ident, Texts, LastOr, Taken;
    OneMore(before, p);
    assert GreaterThan(version, "1.0") && BothGiven(before) <==> s.filePaths > 0 && s.ipcAddresses > 0;
  }

  lemma {:induction false} PartsTallied(parts: seq<Part>, version: string)
    requires InoffensiveParts(parts, GreaterThan(version, "1.0"))
    ensures Tallied(PartsRead(parts, version), parts, version)
  {
    hide PartRead, PartOffence, GreaterThan, Offended;
    if parts == [] {
      NothingTallied(version);
    } else {
      var n := |parts| - 1;
      var before := parts[..n];
      assert forall k: nat | k < n :: before[..k] == parts[..k] && before[k] == parts[k];
      PartsTallied(before, version);
      TalliedGood(PartsRead(before, version), before, version);
      hide Tallied;
      PartTallied(PartsRead(before, version), before, parts[n], version);
      assert parts == before + [parts[n]];
    }
  }

  lemma {:induction false} FailureStays(parts: seq<Part>, version: string, k: nat)
    requires k <= |parts| && PartsRead(parts[..k], version).failed
    ensures PartsRead(parts, version) == PartsRead(parts[..k], version)
  {
    hide PartRead;
    var n := |parts| - 1;
    if k <= n {
      assert parts[..n][..k] == parts[..k];
      FailureStays(parts[..n], version, k);
    } else {
      assert parts[..k] == parts;
    }
  }

  lemma {:induction false} PartsOffended(parts: seq<Part>, version: string, k: nat)
    requires FirstPartOffence(parts, GreaterThan(version, "1.0"), k)
    ensures Offended(PartsRead(parts, version), parts[..k + 1], GreaterThan(version, "1.0"),
              PartOffence(parts[..k], parts[k], GreaterThan(version, "1.0")))
  {
    hide PartRead, PartOffence, GreaterThan, Offended, Tallied;
    var before, upTo := parts[..k], parts[..k + 1];
    assert forall j: nat | j < k :: before[..j] == parts[..j] && before[j] == parts[j];
    PartsTallied(before, version);
    TalliedGood(PartsRead(before, version), before, version);
    PartTallied(PartsRead(before, version), before, parts[k], version);
    assert upTo == before + [parts[k]] && upTo[..k] == before;
    OffendedBad(PartsRead(upTo, version), upTo, GreaterThan(version, "1.0"),
      PartOffence(before, parts[k], GreaterThan(version, "1.0")));
    FailureStays(parts, version, k + 1);
  }

  lemma {:induction false} NothingTallied(version: string)
    ensures Tallied(NewService(version), [], version)
  {
  }

  lemma {:induction false} TalliedGood(s: Service, parts: seq<Part>, version: string)
    requires Tallied(s, parts, version)
    ensures !s.failed
  {
  }

  lemma {:induction false} OffendedBad(s: Service, parts: seq<Part>, addresses: bool, e: Option<Error>)
    requires Offended(s, parts, addresses, e)
    ensures s.failed
  {
  }

  lemma {:induction false} FirstPart(parts: seq<Part>, addresses: bool, k: nat)
    requires k < |parts| && PartOffence(parts[..k], parts[k], addresses).Some?
    ensures exists j :: FirstPartOffence(parts, addresses, j)
    decreases k
  {
    hide PartOffence;
    if j: nat :| j < k && PartOffence(parts[..j], parts[j], addresses).Some? {
      FirstPart(parts, addresses, j);
    } else {
      assert FirstPartOffence(parts, addresses, k);
    }
  }

  lemma {:induction false} OffencesNamed(before: seq<Part>, p: Part, addresses: bool)
    ensures PartOffence(before, p, addresses) != Some(NO_ERROR)
  {
    hide Taken, Texts, NonEmpty, StartsWith;
  }

  lemma {:induction false} CheckedParts(parts: seq<Part>, version: string)
    ensures var s, e := ServiceChecked(PartsRead(parts, version)), ServiceError(parts, GreaterThan(version, "1.0"));
      && (e.Some? ==> s.failed && s.m.latestError == e.value)
      && (e.None? ==>
            && Tallied(PartsRead(parts, version), parts, version) && !s.failed
            && s.m == PartsRead(parts, version).m.(serviceType :=
                        if Texts(Plains(parts), "ipcaddress") != [] then InterProcess else Plugin))
  {
    hide PartsRead, PartOffence, GreaterThan, Plains, Texts, Locations, InterfacesGiven, Taken, LastOr;
    var addresses := GreaterThan(version, "1.0");
    forall k: nat | FirstPartOffence(parts, addresses, k)
      ensures PartOffence(parts[..k], parts[k], addresses) != Some(NO_ERROR)
      ensures Offended(PartsRead(parts, version), parts[..k + 1], addresses,
                PartOffence(parts[..k], parts[k], addresses))
    {
      OffencesNamed(parts[..k], parts[k], addresses);
      PartsOffended(parts, version, k);
    }
    if InoffensiveParts(parts, addresses) {
      PartsTallied(parts, version);
    } else {
      var k: nat :| k < |parts| && PartOffence(parts[..k], parts[k], addresses).Some?;
      FirstPart(parts, addresses, k);
      var j: nat :| FirstPartOffence(parts, addresses, j);
      assert Offended(PartsRead(parts, version), parts[..j + 1], addresses,
          PartOffence(parts[..j], parts[j], addresses));
    }
  }

  /** A service element, and what comes before it. */
  datatype ServiceNode =
    ServiceNode(gap: seq<Token>, attributes: map<string, string>, parts: seq<Part>, end: seq<Token>)

  predicate NodeOk(n: ServiceNode) {
    Blank(n.gap) && WellWritten(n.parts) && Blank(n.end)
  }

  function NodeTokens(n: ServiceNode, rest: seq<Token>): seq<Token> {
    n.gap
    + ([StartElement("service", n.attributes)] + PartsTokens(n.parts, n.end + ([EndElement("service")] + rest)))
  }

  /** What an accepted service says. */
  ghost predicate Says(m: MetaData, parts: seq<Part>) {
    var items := Plains(parts);
    && m.latestError == NO_ERROR
    && m.serviceName == LastOr(Texts(items, "name"), "") && m.serviceLocation == LastOr(Locations(items), "")
    && m.serviceDescription == LastOr(Texts(items, "description"), "")
    && m.serviceType == (if Texts(items, "ipcaddress") != [] then InterProcess else Plugin)
    && |m.interfaces| == |InterfacesGiven(parts)|
    && forall k | 0 <= k < |m.interfaces| ::
         m.interfaces[k] ==
         InterfacesGiven(parts)[k].(
         serviceName := m.serviceName,
         attributes := InterfacesGiven(parts)[k].attributes.(
         location := Some(m.serviceLocation), serviceDescription := Some(m.serviceDescription),
         serviceType := Some(m.serviceType)))
  }

  /** A service whose tags hold text, in a document: it is read in full if nothing is wrong with it. */
  lemma {:induction false} ServiceMeans(version: string, attributes: map<string, string>, parts: seq<Part>,
      end: seq<Token>, rest: seq<Token>)
    requires WellWritten(parts) && Blank(end)
    ensures var o := ServiceElement(CLEARED.(xmlVersion := version), Reader(StartElement("service", attributes),
        PartsTokens(parts, end + ([EndElement("service")] + rest))));
      match ServiceError(parts, GreaterThan(version, "1.0"))
      case Some(e) => !o.ok && o.m.latestError == e
      case None =>
        && o.ok && o.reader == Reader(EndElement("service"), rest)
        && o.m.xmlVersion == version && Says(o.m, parts)
  {
    hide ServiceLoop, PartsRead, ServiceError, GreaterThan, Plains, Texts, Locations, InterfacesGiven, Taken, LastOr,
      PartsTokens, ServiceChecked;
    AllParts(parts, version, end, rest, StartElement("service", attributes));
    CheckedParts(parts, version);
  }
}
