/** Where the service metadata parser stops reading: which documents it accepts without a service, and which
  although they break off. */
module ServiceXmlEnds {
  import opened Text
  import opened Version
  import opened Descriptor
  import opened XmlReader
  import opened ServiceXml
  import opened ServiceXmlFacts
  import opened ServiceXmlItems
  import opened ServiceXmlParts
  import opened ServiceXmlRoundTrip

  // ---------------------------------------------------------------------------------------------
  // Documents without a service
  // ---------------------------------------------------------------------------------------------

  /** A service starts before the document ends. */
  predicate ServiceAhead(tokens: seq<Token>)
    decreases tokens
  {
    && tokens != [] && !tokens[0].EndDocument?
    && ((tokens[0].StartElement? && tokens[0].name == "service") || ServiceAhead(tokens[1..]))
  }

  lemma {:induction false} LoopWithoutError(s: Service, r: Reader)
    requires !s.failed ==> s.m.latestError == NO_ERROR
    ensures var s' := ServiceLoop(s, r).0; !s'.failed ==> s'.m.latestError == NO_ERROR
    decreases Left(r)
  {
    if !s.failed && !AtEnd(r) && !IsEnd(Next(r), "service") {
      var n := Next(r);
      var (s', r') := ServiceTag(s, n);
      TagWithoutError(s, n);
      hide ServiceTag;
      LoopWithoutError(s', r');
    }
  }

  lemma {:induction false} TagWithoutError(s: Service, r: Reader)
    requires s.m.latestError == NO_ERROR && !s.failed
    ensures var s' := ServiceTag(s, r).0; !s'.failed ==> s'.m.latestError == NO_ERROR
  {
    if IsStart(r, "interface") {
      InterfaceKeepsService(s.m, r);
    }
    hide InterfaceElement, ElementText, GreaterThan, StartsWith;
  }

  /** An accepted service has interfaces. */
  lemma {:induction false} ServiceFills(m: MetaData, r: Reader)
    requires m.latestError == NO_ERROR && ServiceElement(m, r).ok
    ensures var o := ServiceElement(m, r); o.m.interfaces != [] && o.m.latestError == NO_ERROR
  {
    var s0 := Service(m, 0, 0, 0, 0, false);
    LoopWithoutError(s0, r);
    hide ServiceLoop;
  }

  /** Reading on from one place to another without a service: there is one ahead of the first exactly if there
      is one ahead of the second. */
  ghost predicate Passed(r: Reader, r': Reader) {
    && !r'.token.Invalid?
    && (ServiceAhead(r.rest) <==> !AtEnd(r') && ServiceAhead(r'.rest))
  }

  lemma {:induction false} VersionLoopServices(o: Outcome)
    requires o.ok && o.m.latestError == NO_ERROR
    ensures var v := VersionLoop(o);
      v.ok ==>
        && v.m.latestError == NO_ERROR && (o.m.interfaces != [] ==> v.m.interfaces != [])
        && (o.m.interfaces == [] && !AtEnd(o.reader) ==>
              if v.m.interfaces == [] then Passed(o.reader, v.reader) else ServiceAhead(o.reader.rest))
    decreases Left(o.reader)
  {
    if !AtEnd(o.reader) {
      var n := Next(o.reader);
      if IsStart(n, "service") {
        var o' := ServiceElement(o.m, n);
        if o'.ok {
          ServiceFills(o.m, n);
          hide ServiceElement;
          VersionLoopServices(o');
        }
      } else if !IsEnd(n, "SFW") && !n.token.StartElement? && !n.token.Invalid? {
        VersionLoopServices(o.(reader := n));
      }
    }
  }

  lemma {:induction false} DocumentLoopServices(o: Outcome)
    requires o.ok && o.m.latestError == NO_ERROR
    ensures var d := DocumentLoop(o);
      d.ok ==>
        && (o.m.interfaces != [] ==> d.m.interfaces != [])
        && (o.m.interfaces == [] && !AtEnd(o.reader) ==> (d.m.interfaces == [] <==> !ServiceAhead(o.reader.rest)))
    decreases Left(o.reader)
  {
    if !AtEnd(o.reader) {
      var n := Next(o.reader);
      if IsStart(n, "SFW") {
        VersionServices(o.m, n);
        var o' := VersionElement(o.m, n);
        hide VersionElement;
        if o'.ok {
          DocumentLoopServices(o');
        }
      } else if IsStart(n, "service") {
        var o' := ServiceElement(o.m, n);
        if o'.ok {
          ServiceFills(o.m, n);
          hide ServiceElement;
          DocumentLoopServices(o');
        }
      } else if !n.token.StartElement? && !n.token.Invalid? {
        DocumentLoopServices(o.(reader := n));
      }
    }
  }

  lemma {:induction false} VersionServices(m: MetaData, r: Reader)
    requires r.token.StartElement? && m.latestError == NO_ERROR
    ensures var v := VersionElement(m, r);
      v.ok ==>
        && v.m.latestError == NO_ERROR && (m.interfaces != [] ==> v.m.interfaces != [])
        && (m.interfaces == [] ==> if v.m.interfaces == [] then Passed(r, v.reader) else ServiceAhead(r.rest))
  {
    hide VersionLoop, CheckVersion, GreaterThan, ServiceAhead;
    if "version" in r.token.attributes {
      VersionLoopServices(Outcome(m.(xmlVersion := r.token.attributes["version"]), r, true));
    }
  }

  /** An accepted document has no interfaces exactly if no service starts before its end. */
  lemma {:induction false} DocumentServices(tokens: seq<Token>)
    ensures Document(tokens).1 ==> (Document(tokens).0.interfaces == [] <==> !ServiceAhead(tokens))
  {
    DocumentLoopServices(Outcome(CLEARED, Reader(Other, tokens), true));
    hide DocumentLoop;
  }

  // ---------------------------------------------------------------------------------------------
  // Documents that break off
  // ---------------------------------------------------------------------------------------------

  /** Where in a document a token stands. */
  datatype Place =
    | Outside | InSfw | InService(inSfw: bool) | InInterface(inSfw: bool) | InText(inInterface: bool, inSfw: bool)

  /** The place after the start of an element. In a document that is accepted, all elements within a service
      but interfaces hold text, and so do all elements within an interface. */
  function Enter(p: Place, name: string): Place {
    match p
    case Outside => if name == "SFW" then InSfw else InService(false)
    case InSfw => InService(true)
    case InService(b) => if name == "interface" then InInterface(b) else InText(false, b)
    case InInterface(b) => InText(true, b)
    case InText(_, _) => p
  }

  function Leave(p: Place, name: string): Place {
    match p
    case Outside => Outside
    case InSfw => if name == "SFW" then Outside else InSfw
    case InService(b) => if b then InSfw else Outside
    case InInterface(b) => InService(b)
    case InText(i, b) => if i then InInterface(b) else InService(b)
  }

  /** Somewhere a text is not brought to its end: an element starts within it, or the document ends or is not
      continued. */
  predicate BreaksOff(p: Place, tokens: seq<Token>)
    decreases tokens
  {
    if tokens == [] then p.InText?
    else
      match tokens[0]
      case StartElement(name, _) => p.InText? || BreaksOff(Enter(p, name), tokens[1..])
      case EndElement(name) => BreaksOff(Leave(p, name), tokens[1..])
      case EndDocument => p.InText?
      case Invalid => p.InText?
      case _ => BreaksOff(p, tokens[1..])
  }

  /** Reading on from one place to another: either the end was reached, by an error exactly if the rest breaks
      off, or that is still to be seen. */
  ghost predicate Reads(p: Place, r: Reader, q: Place, r': Reader) {
    if AtEnd(r') then r'.token.Invalid? <==> BreaksOff(p, r.rest)
    else BreaksOff(p, r.rest) <==> BreaksOff(q, r'.rest)
  }

  lemma {:induction false} TextEnds(p: Place, r: Reader)
    requires p.InText? && !AtEnd(r)
    ensures var end := ElementText(r).1;
      (end.token.Invalid? || end.token.EndElement?) && Reads(p, r, Leave(p, ""), end)
    decreases |r.rest|
  {
    if r.rest != [] {
      var n := Next(r);
      if n.token.Characters? || n.token.Other? {
        TextEnds(p, n);
      }
    }
  }

  lemma {:induction false} InterfaceTagEnds(s: Iface, r: Reader, b: bool)
    requires s.error.None? && !AtEnd(r)
    ensures var (s', r') := InterfaceTag(s, r);
      s'.error.None? ==> Reads(if r.token.StartElement? then InText(true, b) else InInterface(b), r, InInterface(b), r')
    ensures var (s', r') := InterfaceTag(s, r); s'.error.None? ==> !r.token.EndElement?
  {
    if r.token.StartElement? {
      TextEnds(InText(true, b), r);
    }
    hide ElementText, CheckVersion, TransformVersion, BreaksOff, Capable;
  }

  lemma {:induction false} InterfaceEnds(s: Iface, r: Reader, b: bool)
    requires s.error.None? && !AtEnd(r)
    ensures var (s', r') := InterfaceLoop(s, r); s'.error.None? ==> Reads(InInterface(b), r, InService(b), r')
    decreases Left(r)
  {
    var n := Next(r);
    if !IsEnd(n, "interface") && !AtEnd(n) {
      InterfaceTagEnds(s, n, b);
      var (s', r') := InterfaceTag(s, n);
      hide InterfaceTag;
      if s'.error.None? && !AtEnd(r') {
        InterfaceEnds(s', r', b);
      }
    }
  }

  lemma {:induction false} ServiceTagEnds(s: Service, r: Reader, b: bool)
    requires !s.failed && !AtEnd(r)
    ensures var (s', r') := ServiceTag(s, r);
      !s'.failed ==>
        !r.token.EndElement?
        && Reads(if r.token.StartElement? then Enter(InService(b), r.token.name) else InService(b), r, InService(b), r')
  {
    if IsStart(r, "interface") {
      InterfaceEnds(NEW_IFACE, r, b);
      hide InterfaceLoop, InterfaceChecked, BreaksOff, ElementText, Ident, Added, GreaterThan, StartsWith;
    } else {
      if r.token.StartElement? {
        TextEnds(InText(false, b), r);
      }
      hide ElementText, BreaksOff, InterfaceElement, GreaterThan, StartsWith;
    }
  }

  lemma {:induction false} ServiceEnds(s: Service, r: Reader, b: bool)
    requires !s.failed && !AtEnd(r)
    ensures var (s', r') := ServiceLoop(s, r); !s'.failed ==> Reads(InService(b), r, if b then InSfw else Outside, r')
    decreases Left(r)
  {
    var n := Next(r);
    if !IsEnd(n, "service") && !AtEnd(n) {
      ServiceTagEnds(s, n, b);
      var (s', r') := ServiceTag(s, n);
      hide ServiceTag;
      if !s'.failed && !AtEnd(r') {
        ServiceEnds(s', r', b);
      }
    }
  }

  lemma {:induction false} ServiceElementEnds(m: MetaData, r: Reader, b: bool)
    requires !AtEnd(r)
    ensures var o := ServiceElement(m, r); o.ok ==> Reads(InService(b), r, if b then InSfw else Outside, o.reader)
  {
    ServiceEnds(Service(m, 0, 0, 0, 0, false), r, b);
    hide ServiceLoop, AllOfService, BreaksOff;
  }

  lemma {:induction false} VersionEnds(o: Outcome)
    requires o.ok && !AtEnd(o.reader)
    ensures var v := VersionLoop(o); v.ok ==> Reads(InSfw, o.reader, Outside, v.reader)
    decreases Left(o.reader)
  {
    var n := Next(o.reader);
    if IsStart(n, "service") {
      ServiceElementEnds(o.m, n, true);
      var o' := ServiceElement(o.m, n);
      hide ServiceElement;
      if o'.ok && !AtEnd(o'.reader) {
        VersionEnds(o');
      }
    } else if !IsEnd(n, "SFW") && !n.token.StartElement? && !AtEnd(n) {
      VersionEnds(o.(reader := n));
    }
  }

  lemma {:induction false} VersionElementEnds(m: MetaData, r: Reader)
    requires r.token.StartElement?
    ensures var v := VersionElement(m, r); v.ok ==> Reads(InSfw, r, Outside, v.reader)
  {
    hide VersionLoop, CheckVersion, GreaterThan, BreaksOff;
    if "version" in r.token.attributes {
      VersionEnds(Outcome(m.(xmlVersion := r.token.attributes["version"]), r, true));
    }
  }

  lemma {:induction false} DocumentLoopEnds(o: Outcome)
    requires o.ok && !AtEnd(o.reader)
    ensures var d := DocumentLoop(o); d.ok ==> (d.reader.token.Invalid? <==> BreaksOff(Outside, o.reader.rest))
    decreases Left(o.reader)
  {
    var n := Next(o.reader);
    if IsStart(n, "SFW") {
      VersionElementEnds(o.m, n);
      var o' := VersionElement(o.m, n);
      hide VersionElement;
      if o'.ok && !AtEnd(o'.reader) {
        DocumentLoopEnds(o');
      }
    } else if IsStart(n, "service") {
      ServiceElementEnds(o.m, n, false);
      var o' := ServiceElement(o.m, n);
      hide ServiceElement;
      if o'.ok && !AtEnd(o'.reader) {
        DocumentLoopEnds(o');
      }
    } else if !n.token.StartElement? && !AtEnd(n) {
      DocumentLoopEnds(o.(reader := n));
    }
  }

  /** An accepted document was read up to an error, and not to its end, exactly if a text within it breaks
      off. */
  lemma {:induction false} DocumentEnds(tokens: seq<Token>)
    ensures Document(tokens).1 ==>
              (DocumentLoop(Outcome(CLEARED, Reader(Other, tokens), true)).reader.token.Invalid? <==>
                BreaksOff(Outside, tokens))
  {
    DocumentLoopEnds(Outcome(CLEARED, Reader(Other, tokens), true));
    hide DocumentLoop, BreaksOff;
  }

  /** A document that stops within the description of its service. */
  const BROKEN: seq<Token> :=
    [StartElement("SFW", map["version" := "1.1"]), StartElement("service", map[]),
     StartElement("name", map[]), Characters("s"), EndElement("name"),
     StartElement("filepath", map[]), Characters("p"), EndElement("filepath"),
     StartElement("interface", map[]),
     StartElement("name", map[]), Characters("f"), EndElement("name"),
     StartElement("version", map[]), Characters("1.0"), EndElement("version"),
     EndElement("interface"),
     StartElement("description", map[]), StartElement("b", map[])]

  const BROKEN_INTERFACE: Written := Written(NEW_INTERFACE.(interfaceName := "f", major := 1, minor := 0), [])

  const BROKEN_PARTS: seq<Part> :=
    [Plain(TextItem("name", "s")), Plain(TextItem("filepath", "p")), InterfacePart(BROKEN_INTERFACE)]

  const BROKEN_END: seq<Token> := [StartElement("description", map[]), StartElement("b", map[])]

  lemma {:induction false} BrokenItems()
    ensures Writable(BROKEN_INTERFACE)
    ensures ItemsOf(BROKEN_INTERFACE) == [TextItem("name", "f"), TextItem("version", "1.0")]
  {
    assert Decimal(1) == "1" && Decimal(0) == "0";
    assert VersionText(BROKEN_INTERFACE.d) == "1.0";
    hide VersionText;
  }

  lemma {:induction false} ItemTokens(tag: string, text: string, more: seq<Item>, rest: seq<Token>)
    ensures ItemsTokens([TextItem(tag, text)] + more, rest) ==
            [StartElement(tag, map[]), Characters(text), EndElement(tag)] + ItemsTokens(more, rest)
  {
    assert ([TextItem(tag, text)] + more)[1..] == more;
  }

  lemma {:induction false} BrokenTokens()
    ensures BROKEN ==
            [StartElement("SFW", map["version" := "1.1"]), StartElement("service", map[])]
            + PartsTokens(BROKEN_PARTS, BROKEN_END)
  {
    hide ItemsOf, ItemsTokens, TextItem;
    BrokenInterfaceTokens();
    var parts := BROKEN_PARTS;
    assert parts[1..] == [parts[1], parts[2]] && parts[1..][1..] == [parts[2]] && [parts[2]][1..] == [];
    assert PartsTokens([parts[2]], BROKEN_END) == BROKEN[8..];
    BrokenTagTokens();
  }

  lemma {:induction false} BrokenTagTokens()
    ensures PartTokens(Plain(TextItem("filepath", "p")), BROKEN[8..]) == BROKEN[5..]
    ensures PartTokens(Plain(TextItem("name", "s")), BROKEN[5..]) == BROKEN[2..]
  {
    hide PartTokens;
    TagTokens("filepath", "p", BROKEN[8..]);
    TagTokens("name", "s", BROKEN[5..]);
  }

  lemma {:induction false} TagTokens(tag: string, text: string, rest: seq<Token>)
    ensures PartTokens(Plain(TextItem(tag, text)), rest) ==
              [StartElement(tag, map[]), Characters(text), EndElement(tag)] + rest
  {
  }

  lemma {:induction false} BrokenInterfaceTokens()
    ensures PartTokens(InterfacePart(BROKEN_INTERFACE), BROKEN_END) == BROKEN[8..]
  {
    hide ItemsOf, ItemsTokens;
    BrokenItems();
    var end := [] + ([EndElement("interface")] + BROKEN_END);
    var i1, i2 := [TextItem("name", "f")], [TextItem("version", "1.0")];
    ItemTokens("name", "f", i2, end);
    ItemTokens("version", "1.0", [], end);
    NoItems(end);
    assert i1 + i2 == ItemsOf(BROKEN_INTERFACE) && i2 + [] == i2;
  }

  lemma {:induction false} NoItems(rest: seq<Token>)
    ensures ItemsTokens([], rest) == rest
  {
  }

  lemma {:induction false} BrokenSays()
    ensures Plains(BROKEN_PARTS) == [TextItem("name", "s"), TextItem("filepath", "p")]
    ensures InterfacesGiven(BROKEN_PARTS) == [BROKEN_INTERFACE.d]
  {
    hide ItemsOf, InterfaceGiven, InterfaceError, Ident, Plains, InterfacesGiven, Taken, Writable, TextItem;
    var parts, p0, p1, p2 := BROKEN_PARTS, BROKEN_PARTS[0], BROKEN_PARTS[1], BROKEN_PARTS[2];
    assert Plains([]) == [] && InterfacesGiven([]) == [] by {
      NothingSaid();
    }
    BrokenItems();
    WrittenGiven(BROKEN_INTERFACE);
    OneMore([], p0);
    OneMore([p0], p1);
    OneMore([p0, p1], p2);
    assert [] + [p0] == [p0] && [p0] + [p1] == [p0, p1] && [p0, p1] + [p2] == parts;
  }

  lemma NothingSaid()
    ensures Plains([]) == [] && InterfacesGiven([]) == []
  {
  }

  /** Up to where it breaks off, nothing is wrong with that service. */
  lemma {:induction false} BrokenParts()
    ensures WellWritten(BROKEN_PARTS) && InoffensiveParts(BROKEN_PARTS, true)
  {
    hide ItemsOf, InterfaceGiven, InterfaceError, Ident, TextOf, Taken;
    BrokenItems();
    WrittenGiven(BROKEN_INTERFACE);
    PlainText("p");
    var before := BROKEN_PARTS[..2];
    assert !Taken(before, Ident(InterfaceGiven(ItemsOf(BROKEN_INTERFACE)))) by {
      NoneTaken(before, Ident(InterfaceGiven(ItemsOf(BROKEN_INTERFACE))));
    }
  }

  lemma NoneTaken(parts: seq<Part>, ident: string)
    requires forall p | p in parts :: p.Plain?
    ensures !Taken(parts, ident)
  {
  }

  lemma {:induction false} BrokenText(s: Service)
    requires !s.failed
    ensures ServiceLoop(s, Reader(Other, BROKEN_END)) ==
            (s.(m := s.m.(serviceDescription := ""), descriptions := s.descriptions + 1), Reader(Invalid, []))
  {
    var n := Reader(StartElement("description", map[]), [StartElement("b", map[])]);
    assert BROKEN_END[1..] == [StartElement("b", map[])];
    assert Next(Reader(Other, BROKEN_END)) == n;
    assert ElementText(n) == ("", Reader(Invalid, []));
    var s' := s.(m := s.m.(serviceDescription := ""), descriptions := s.descriptions + 1);
    assert ServiceTag(s, n) == (s', Reader(Invalid, []));
    hide ServiceTag, ElementText, ServiceLoop;
    BrokenTextAccepted(s, Reader(Other, BROKEN_END));
  }

  /** The loop over that service. */
  lemma {:induction false} BrokenLoop()
    ensures var (s, r) := ServiceLoop(NewService("1.1"),
        Reader(StartElement("service", map[]), PartsTokens(BROKEN_PARTS, BROKEN_END)));
      && r == Reader(Invalid, []) && !s.failed && s.names == 1 && s.descriptions == 1 && s.filePaths == 1
      && s.ipcAddresses == 0 && s.m.serviceName == "s" && s.m.serviceLocation == "p" && s.m.latestError == NO_ERROR
      && s.m.interfaces == [BROKEN_INTERFACE.d]
  {
    hide ServiceLoop, PartsTokens, PartsRead, PartOffence;
    var all := PartsTokens(BROKEN_PARTS, BROKEN_END);
    XmlVersions();
    BrokenParts();
    PartsStep(BROKEN_PARTS, "1.1", 0, BROKEN_END);
    assert BROKEN_PARTS[..0] == [] && BROKEN_PARTS[0..] == BROKEN_PARTS && [] + all == all;
    assert PartsRead([], "1.1") == NewService("1.1") by {
      NoParts();
    }
    ServiceGap(NewService("1.1"), [], all, StartElement("service", map[]));
    var s := PartsRead(BROKEN_PARTS, "1.1");
    assert Tallied(s, BROKEN_PARTS, "1.1") by {
      PartsTallied(BROKEN_PARTS, "1.1");
    }
    BrokenTexts(s);
    BrokenText(s);
  }

  lemma {:induction false} NoParts()
    ensures PartsRead([], "1.1") == NewService("1.1")
  {
  }

  lemma {:induction false} BrokenTexts(s: Service)
    requires Tallied(s, BROKEN_PARTS, "1.1")
    ensures !s.failed && s.names == 1 && s.descriptions == 0 && s.filePaths == 1 && s.ipcAddresses == 0
    ensures s.m.serviceName == "s" && s.m.serviceLocation == "p" && s.m.interfaces == [BROKEN_INTERFACE.d]
    ensures s.m.latestError == NO_ERROR
  {
    hide Texts, Locations, Plains, InterfacesGiven, Taken;
    BrokenSays();
    BrokenTags();
  }

  lemma {:induction false} BrokenTags()
    ensures var items := [TextItem("name", "s"), TextItem("filepath", "p")];
      && Texts(items, "name") == ["s"] && Texts(items, "filepath") == ["p"] && Texts(items, "description") == []
      && Texts(items, "ipcaddress") == [] && Locations(items) == ["p"]
  {
    hide Texts, Locations, TextOf, CustomsGiven;
    var i0, i1 := TextItem("name", "s"), TextItem("filepath", "p");
    NoTexts();
    PlainText("s");
    PlainText("p");
    MoreTexts([], i0);
    MoreTexts([i0], i1);
    assert [] + [i0] == [i0] && [i0] + [i1] == [i0, i1];
  }

  /** Its `<SFW>` element is entered and left with the service. */
  lemma {:induction false} BrokenVersion(rest: seq<Token>)
    ensures var tokens := [StartElement("SFW", map["version" := "1.1"]), StartElement("service", map[])] + rest;
      VersionElement(CLEARED, Reader(tokens[0], tokens[1..])) ==
        VersionLoop(ServiceElement(CLEARED.(xmlVersion := "1.1"), Reader(StartElement("service", map[]), rest)))
  {
    var tokens := [StartElement("SFW", map["version" := "1.1"]), StartElement("service", map[])] + rest;
    XmlVersions();
    hide CheckVersion, TransformVersion, ServiceElement;
    assert tokens[1..] == [StartElement("service", map[])] + rest;
    assert tokens[1..][1..] == rest;
  }

  /** It is accepted, with its interface. */
  lemma {:induction false} BrokenDocumentAccepted()
    ensures var (m, ok) := Document(BROKEN);
      && ok && BreaksOff(Outside, BROKEN)
      && m.serviceName == "s" && |m.interfaces| == 1 && m.interfaces[0].interfaceName == "f"
        && m.interfaces[0].serviceName == "s"
  {
    hide PartsTokens, ServiceLoop, BreaksOff, VersionElement, Ident;
    var rest := PartsTokens(BROKEN_PARTS, BROKEN_END);
    BrokenTokens();
    BrokenVersion(rest);
    BrokenLoop();
    DocumentEnds(BROKEN);
    var o := ServiceElement(CLEARED.(xmlVersion := "1.1"), Reader(StartElement("service", map[]), rest));
    assert o.ok && o.reader == Reader(Invalid, []);
    hide ServiceElement;
    assert VersionLoop(o) == o;
    var r := Reader(BROKEN[0], BROKEN[1..]);
    assert DocumentLoop(Outcome(CLEARED, Reader(Other, BROKEN), true)) == DocumentLoop(VersionElement(CLEARED, r));
    assert DocumentLoop(o) == o;
  }
}
