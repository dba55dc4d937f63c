/** Whole documents with one service: what the parser makes of them, and reading back a service description that was
  written out as XML. */
module ServiceXmlRoundTrip {
  import opened Text
  import opened Version
  import opened Descriptor
  import opened XmlReader
  import opened ServiceXml
  import opened ServiceXmlFacts
  import opened ServiceXmlItems
  import opened ServiceXmlParts

  // ---------------------------------------------------------------------------------------------
  // Documents with one service
  // ---------------------------------------------------------------------------------------------

  /** A document is a service, or an `<SFW>` element around one. */
  datatype XmlDocument =
    | Bare(service: ServiceNode, end: seq<Token>)
    | Sfw(gap: seq<Token>, attributes: map<string, string>, service: ServiceNode, inner: seq<Token>, end: seq<Token>)

  predicate DocumentOk(d: XmlDocument) {
    match d
    case Bare(service, end) => NodeOk(service) && Blank(end)
    case Sfw(gap, _, service, inner, end) => Blank(gap) && NodeOk(service) && Blank(inner) && Blank(end)
  }

  function TokensOf(d: XmlDocument): seq<Token> {
    match d
    case Bare(service, end) => NodeTokens(service, end + [EndDocument])
    case Sfw(gap, attributes, service, inner, end) =>
      gap
      + ([StartElement("SFW", attributes)] + NodeTokens(service, SfwEnd(inner, end)))
  }

  function SfwEnd(inner: seq<Token>, end: seq<Token>): seq<Token> {
    inner + ([EndElement("SFW")] + (end + [EndDocument]))
  }

  /** The version of a document: 1.0 unless it says otherwise. None if it says nothing that is a version. */
  function VersionOf(d: XmlDocument): Option<string> {
    if d.Bare? then Some("1.0")
    else if "version" in d.attributes && CheckVersion(d.attributes["version"]) then Some(d.attributes["version"])
    else None
  }

  /** The error of a document: its version is none or above 1.1, or it is that of the service. Addresses are known
      from version 1.1 on. */
  ghost function DocumentError(d: XmlDocument): Option<Error> {
    match VersionOf(d)
    case None => Some(InvalidXmlVersion)
    case Some(version) =>
      var v := TransformVersion(version);
      if v.major > 1 || v.minor > 1 then Some(UnsupportedXmlVersion) else ServiceError(d.service.parts, v.minor == 1)
  }

  lemma {:induction false} VersionGap(m: MetaData, gap: seq<Token>, rest: seq<Token>, token: Token)
    requires Blank(gap) && !token.EndDocument? && !token.Invalid?
    ensures VersionLoop(Outcome(m, Reader(token, gap + rest), true)) ==
              VersionLoop(Outcome(m, Reader(Other, rest), true))
    decreases |gap|
  {
    hide ServiceElement;
    if gap == [] {
      assert gap + rest == rest;
    } else {
      var all := gap + rest;
      assert all[0] == gap[0] && gap[0] in gap && all[1..] == gap[1..] + rest;
      VersionGap(m, gap[1..], rest, gap[0]);
    }
  }

  lemma {:induction false} DocumentGap(m: MetaData, gap: seq<Token>, rest: seq<Token>, token: Token)
    requires Blank(gap) && !token.EndDocument? && !token.Invalid?
    ensures DocumentLoop(Outcome(m, Reader(token, gap + rest), true)) ==
              DocumentLoop(Outcome(m, Reader(Other, rest), true))
    decreases |gap|
  {
    hide ServiceElement, VersionElement;
    if gap == [] {
      assert gap + rest == rest;
    } else {
      var all := gap + rest;
      assert all[0] == gap[0] && gap[0] in gap && all[1..] == gap[1..] + rest;
      DocumentGap(m, gap[1..], rest, gap[0]);
    }
  }

  lemma {:induction false} XmlVersions()
    ensures CheckVersion("1.0") && TransformVersion("1.0") == Version(1, 0)
    ensures CheckVersion("1.1") && TransformVersion("1.1") == Version(1, 1)
    ensures XML_MAX == "1.1"
  {
    VersionRoundTrip(1, 1, true);
    VersionRoundTrip(1, 0, true);
    assert Decimal(1) + "." + Decimal(1) == "1.1" && Decimal(1) + "." + Decimal(0) == "1.0";
    hide Parse;
  }

  /** The end of a document. */
  lemma {:induction false} AtDocumentEnd(m: MetaData, end: seq<Token>, token: Token)
    requires Blank(end) && !token.EndDocument? && !token.Invalid?
    ensures var o := DocumentLoop(Outcome(m, Reader(token, end + [EndDocument]), true)); o.m == m && o.ok
  {
    hide VersionElement, ServiceElement;
    DocumentGap(m, end, [EndDocument], token);
    assert [EndDocument][1..] == [];
    assert DocumentLoop(Outcome(m, Reader(EndDocument, []), true)) == Outcome(m, Reader(EndDocument, []), true);
  }

  lemma {:induction false} BareMeans(d: XmlDocument)
    requires d.Bare? && DocumentOk(d)
    ensures var (m, ok) := Document(TokensOf(d));
      match DocumentError(d)
      case Some(e) => !ok && m == CLEARED.(latestError := e)
      case None => ok && m.xmlVersion == "1.0" && Says(m, d.service.parts)
  {
    hide ServiceElement, VersionElement, CheckVersion, TransformVersion, ServiceError, Says, PartsTokens, WellWritten;
    var n, rest := d.service, d.end + [EndDocument];
    XmlVersions();
    ServiceMeans("1.0", n.attributes, n.parts, n.end, rest);
    var inner := PartsTokens(n.parts, n.end + ([EndElement("service")] + rest));
    var all := [StartElement("service", n.attributes)] + inner;
    DocumentGap(CLEARED, n.gap, all, Other);
    assert all[1..] == inner;
    var o := ServiceElement(CLEARED, Reader(StartElement("service", n.attributes), inner));
    if o.ok {
      AtDocumentEnd(o.m, d.end, EndElement("service"));
    }
  }

  lemma {:induction false} SfwMeans(d: XmlDocument)
    requires d.Sfw? && DocumentOk(d)
    ensures var (m, ok) := Document(TokensOf(d));
      match DocumentError(d)
      case Some(e) => !ok && m == CLEARED.(latestError := e)
      case None => ok && m.xmlVersion == d.attributes["version"] && Says(m, d.service.parts)
  {
    hide ServiceElement, VersionElement, CheckVersion, TransformVersion, ServiceError, Says, PartsTokens, WellWritten,
      SfwEnd, NodeTokens, NodeOk;
    var inner := NodeTokens(d.service, SfwEnd(d.inner, d.end));
    var all := [StartElement("SFW", d.attributes)] + inner;
    DocumentGap(CLEARED, d.gap, all, Other);
    assert all[1..] == inner;
    VersionMeans(d);
    var o := VersionElement(CLEARED, Reader(StartElement("SFW", d.attributes), inner));
    if o.ok {
      AtDocumentEnd(o.m, d.end, EndElement("SFW"));
    }
  }

  lemma {:induction false} VersionMeans(d: XmlDocument)
    requires d.Sfw? && DocumentOk(d)
    ensures var o := VersionElement(CLEARED, Reader(StartElement("SFW", d.attributes),
        NodeTokens(d.service, SfwEnd(d.inner, d.end))));
      match DocumentError(d)
      case Some(e) => !o.ok && o.m.latestError == e
      case None =>
        && o.ok && o.m.xmlVersion == d.attributes["version"] && Says(o.m, d.service.parts)
        && o.reader == Reader(EndElement("SFW"), d.end + [EndDocument])
  {
    hide ServiceElement, VersionLoop, ServiceError, Says, NodeTokens, WellWritten, CheckVersion, TransformVersion,
      SfwEnd, NodeOk;
    XmlVersions();
    if VersionOf(d).Some? {
      var version := d.attributes["version"];
      ParsedRange(version);
      EmptyIsNone();
      if !GreaterThan(version, "1.1") {
        VersionInside(d, version);
      }
    }
  }

  lemma {:induction false} EmptyIsNone()
    ensures !CheckVersion("")
  {
  }

  lemma {:induction false} VersionInside(d: XmlDocument, version: string)
    requires d.Sfw? && DocumentOk(d)
    ensures var start := Reader(StartElement("SFW", d.attributes), NodeTokens(d.service, SfwEnd(d.inner, d.end)));
      var o := VersionLoop(Outcome(CLEARED.(xmlVersion := version), start, true));
      match ServiceError(d.service.parts, GreaterThan(version, "1.0"))
      case Some(e) => !o.ok && o.m.latestError == e
      case None =>
        && o.ok && o.m.xmlVersion == version && Says(o.m, d.service.parts)
        && o.reader == Reader(EndElement("SFW"), d.end + [EndDocument])
  {
    hide ServiceElement, ServiceError, Says, PartsTokens, WellWritten, GreaterThan;
    var n, m, rest := d.service, CLEARED.(xmlVersion := version), SfwEnd(d.inner, d.end);
    ServiceMeans(version, n.attributes, n.parts, n.end, rest);
    var inner := PartsTokens(n.parts, n.end + ([EndElement("service")] + rest));
    var all := [StartElement("service", n.attributes)] + inner;
    VersionGap(m, n.gap, all, StartElement("SFW", d.attributes));
    assert all[1..] == inner;
    var o := ServiceElement(m, Reader(StartElement("service", n.attributes), inner));
    if o.ok {
      VersionGap(o.m, d.inner, [EndElement("SFW")] + (d.end + [EndDocument]), EndElement("service"));
      assert ([EndElement("SFW")] + (d.end + [EndDocument]))[1..] == d.end + [EndDocument];
    }
  }

  /** Every document with one service whose elements hold text, in whatever order and with anything blank between
      them: it is accepted if nothing is wrong with it, and then what is read is what it says; and otherwise it is
      rejected with the first error there is. */
  lemma {:induction false} DocumentMeans(d: XmlDocument)
    requires DocumentOk(d)
    ensures var (m, ok) := Document(TokensOf(d));
      match DocumentError(d)
      case Some(e) => !ok && m == CLEARED.(latestError := e)
      case None => ok && Some(m.xmlVersion) == VersionOf(d) && Says(m, d.service.parts)
  {
    hide Document, TokensOf, DocumentError, Says, CheckVersion;
    if d.Bare? {
      BareMeans(d);
    } else {
      SfwMeans(d);
      VersionGiven(d);
    }
  }

  lemma {:induction false} VersionGiven(d: XmlDocument)
    requires d.Sfw?
    ensures DocumentError(d).None? ==> "version" in d.attributes && VersionOf(d) == Some(d.attributes["version"])
  {
    hide ServiceError, CheckVersion, TransformVersion;
  }

  // ---------------------------------------------------------------------------------------------
  // Writing an interface and reading it back
  // ---------------------------------------------------------------------------------------------

  type Pairs = seq<(string, string)>

  /** An interface as a document gives it, with its custom properties in the order written. */
  datatype Written = Written(d: Descriptor, customs: Pairs)

  function AsMap(ps: Pairs): map<string, string> {
    if ps == [] then map[] else AsMap(ps[..|ps| - 1])[ps[|ps| - 1].0 := ps[|ps| - 1].1]
  }

  /** What a document can say about an interface. */
  ghost predicate Writable(w: Written) {
    && ParsedInterface(w.d)
    && w.d.serviceName == "" && w.d.scope == UserScope
    && w.d.attributes ==
      NO_ATTRIBUTES.(capabilities := w.d.attributes.capabilities,
      interfaceDescription := w.d.attributes.interfaceDescription)
    && w.d.customAttributes == AsMap(w.customs)
    && (forall i | 0 <= i < |w.customs| :: w.customs[i].0 != "")
    && (forall i, j | 0 <= i < j < |w.customs| :: w.customs[i].0 != w.customs[j].0)
  }

  function TextItem(tag: string, text: string): Item {
    Item([], tag, map[], [Characters(text)])
  }

  function CustomItem(key: string, text: string): Item {
    Item([], "customproperty", map["key" := key], [Characters(text)])
  }

  function CustomItems(ps: Pairs): seq<Item> {
    if ps == [] then [] else CustomItems(ps[..|ps| - 1]) + [CustomItem(ps[|ps| - 1].0, ps[|ps| - 1].1)]
  }

  function Optional(tag: string, text: Option<string>): seq<Item> {
    if text.Some? then [TextItem(tag, text.value)] else []
  }

  function CapabilityText(d: Descriptor): Option<string> {
    if d.attributes.capabilities.Some? then Some(JoinWith(d.attributes.capabilities.value, ',')) else None
  }

  function VersionText(d: Descriptor): string {
    Digits(d.major) + "." + Digits(d.minor)
  }

  function HeadItems(d: Descriptor): seq<Item> {
    [TextItem("name", d.interfaceName), TextItem("version", VersionText(d))]
    + Optional("description", d.attributes.interfaceDescription) + Optional("capabilities", CapabilityText(d))
  }

  /** The elements of an interface. */
  function ItemsOf(w: Written): seq<Item> {
    HeadItems(w.d) + CustomItems(w.customs)
  }

  lemma {:induction false} PlainText(text: string)
    ensures TextOf([Characters(text)]) == text
  {
    assert [Characters(text)][1..] == [];
    assert text + "" == text;
  }

  lemma CapabilitiesBack(list: seq<string>)
    requires ListOfParts(list)
    ensures NonEmpty(SplitAt(JoinWith(list, ','), ',')) == list
  {
    SplitJoined(list, ',');
    NonEmptyAll(list);
  }

  lemma {:induction false} NonEmptyAll(list: seq<string>)
    requires forall p | p in list :: p != ""
    ensures NonEmpty(list) == list
  {
    if list != [] {
      assert list[0] in list && forall p | p in list[1..] :: p in list;
      NonEmptyAll(list[1..]);
    }
  }

  /** One element more. */
  lemma {:induction false} MoreTexts(items: seq<Item>, i: Item)
    ensures forall tag :: Texts(items + [i], tag) ==
              if i.tag == tag then Texts(items, tag) + [TextOf(i.content)] else Texts(items, tag)
    ensures CustomsGiven(items + [i]) ==
            if i.tag == "customproperty" && "key" in i.attributes
            then CustomsGiven(items)[i.attributes["key"] := TextOf(i.content)] else CustomsGiven(items)
    ensures Locations(items + [i]) ==
            if i.tag == "filepath" || i.tag == "ipcaddress" then Locations(items) + [TextOf(i.content)]
            else Locations(items)
  {
    assert (items + [i])[..|items|] == items;
  }

  lemma {:induction false} OptionalTexts(items: seq<Item>, tag: string, text: Option<string>)
    requires tag != "customproperty"
    ensures var all := items + Optional(tag, text);
      && (forall t :: Texts(all, t) ==
            if t == tag && text.Some? then Texts(items, t) + [text.value] else Texts(items, t))
      && CustomsGiven(all) == CustomsGiven(items)
  {
    if text.Some? {
      PlainText(text.value);
      MoreTexts(items, TextItem(tag, text.value));
    } else {
      assert items + [] == items;
    }
  }

  lemma {:induction false} FirstTexts(name: string, version: string)
    ensures var items := [TextItem("name", name), TextItem("version", version)];
      && Texts(items, "name") == [name] && Texts(items, "version") == [version]
      && Texts(items, "description") == [] && Texts(items, "capabilities") == [] && CustomsGiven(items) == map[]
  {
    hide Texts, CustomsGiven, TextOf, TextItem;
    var i0, i1 := TextItem("name", name), TextItem("version", version);
    NoTexts();
    TextItemSays("name", name);
    TextItemSays("version", version);
    MoreTexts([], i0);
    MoreTexts([i0], i1);
    assert [] + [i0] == [i0] && [i0] + [i1] == [i0, i1];
  }

  lemma {:induction false} TextItemSays(tag: string, text: string)
    ensures TextItem(tag, text).tag == tag && TextOf(TextItem(tag, text).content) == text
  {
    PlainText(text);
  }

  /** What the elements before the custom properties say. */
  lemma {:induction false} HeadTexts(d: Descriptor)
    ensures var items := HeadItems(d);
      && Texts(items, "name") == [d.interfaceName] && Texts(items, "version") == [VersionText(d)]
      && Texts(items, "description") ==
         (if d.attributes.interfaceDescription.Some? then [d.attributes.interfaceDescription.value] else [])
      && Texts(items, "capabilities") == (if CapabilityText(d).Some? then [CapabilityText(d).value] else [])
      && CustomsGiven(items) == map[]
  {
    hide VersionText, CapabilityText, Texts, CustomsGiven, Optional, TextOf;
    var i0, i1 := TextItem("name", d.interfaceName), TextItem("version", VersionText(d));
    FirstTexts(d.interfaceName, VersionText(d));
    OptionalTexts([i0, i1], "description", d.attributes.interfaceDescription);
    OptionalTexts([i0, i1] + Optional("description", d.attributes.interfaceDescription), "capabilities",
      CapabilityText(d));
  }

  lemma {:induction false} NoTexts()
    ensures forall tag :: Texts([], tag) == []
    ensures CustomsGiven([]) == map[] && Locations([]) == []
  {
  }

  /** The custom properties add nothing but themselves. */
  lemma {:induction false} CustomTexts(items: seq<Item>, ps: Pairs)
    requires CustomsGiven(items) == map[]
    ensures var all := items + CustomItems(ps);
      (forall tag :: tag != "customproperty" ==> Texts(all, tag) == Texts(items, tag)) && CustomsGiven(all) == AsMap(ps)
    decreases |ps|
  {
    if ps == [] {
      assert items + [] == items;
    } else {
      var n := |ps| - 1;
      CustomTexts(items, ps[..n]);
      hide Texts, CustomsGiven, TextOf;
      PlainText(ps[n].1);
      var i := CustomItem(ps[n].0, ps[n].1);
      MoreTexts(items + CustomItems(ps[..n]), i);
      assert items + CustomItems(ps) == items + CustomItems(ps[..n]) + [i];
    }
  }

  lemma {:induction false} CustomsAt(ps: Pairs)
    ensures |CustomItems(ps)| == |ps|
    ensures forall k | 0 <= k < |ps| :: CustomItems(ps)[k] == CustomItem(ps[k].0, ps[k].1)
  {
    if ps != [] {
      CustomsAt(ps[..|ps| - 1]);
    }
  }

  lemma {:induction false} VersionBack(w: Written)
    requires Writable(w)
    ensures CheckVersion(VersionText(w.d)) && VersionText(w.d) != ""
    ensures TransformVersion(VersionText(w.d)) == Version(w.d.major, w.d.minor)
  {
    assert w.d.major > 0;
    VersionRoundTrip(w.d.major, w.d.minor, true);
    hide Parse;
  }

  lemma {:induction false} HeadWell(w: Written)
    requires Writable(w)
    ensures Flat(HeadItems(w.d)) && Inoffensive(HeadItems(w.d))
    ensures forall i | i in HeadItems(w.d) :: i.tag != "customproperty"
  {
    hide CheckVersion, VersionText, ParsedInterface, TextOf, CapabilityText, AsMap, Writable;
    VersionBack(w);
    PlainText(VersionText(w.d));
  }

  lemma {:induction false} WrittenWell(w: Written)
    requires Writable(w)
    ensures Flat(ItemsOf(w)) && Inoffensive(ItemsOf(w))
  {
    HeadWell(w);
    CustomsAt(w.customs);
    hide HeadItems, CheckVersion, ParsedInterface, TextOf, CustomItems, AsMap;
    var head, all := HeadItems(w.d), ItemsOf(w);
    forall k: nat | k < |all|
      ensures Offence(all, k).None?
    {
      if k < |head| {
        OffenceBefore(all, |head|, k);
        assert all[..|head|] == head;
      } else {
        forall j | 0 <= j < k
          ensures !HasKey(all[j], w.customs[k - |head|].0)
        {
          assert j < |head| ==> all[j] == head[j] && head[j] in head;
        }
      }
    }
  }

  /** An interface that was written says what was written. */
  lemma {:induction false} WrittenGiven(w: Written)
    requires Writable(w)
    ensures Flat(ItemsOf(w)) && InterfaceError(ItemsOf(w)).None? && InterfaceGiven(ItemsOf(w)) == w.d
  {
    hide Texts, CustomsGiven, HeadItems, CustomItems, Offence, CheckVersion, TransformVersion, VersionText, AsMap,
      SplitAt, NonEmpty, JoinWith, Flat;
    WrittenWell(w);
    HeadTexts(w.d);
    CustomTexts(HeadItems(w.d), w.customs);
    VersionBack(w);
    NonEmptyAll([VersionText(w.d)]);
    if w.d.attributes.capabilities.Some? {
      CapabilitiesBack(w.d.attributes.capabilities.value);
    }
  }

  // ---------------------------------------------------------------------------------------------
  // Writing a service and reading it back
  // ---------------------------------------------------------------------------------------------

  datatype Published = Published(name: string, description: string, location: string, serviceType: ServiceType,
    interfaces: seq<Written>)

  ghost predicate Publishable(p: Published) {
    && p.name != "" && p.location != "" && !StartsWith(p.location, IPC_PREFIX)
    && p.interfaces != [] && forall i | 0 <= i < |p.interfaces| :: Writable(p.interfaces[i])
  }

  function Descriptors(ws: seq<Written>): (ds: seq<Descriptor>)
    ensures |ds| == |ws| && forall i | 0 <= i < |ws| :: ds[i] == ws[i].d
  {
    if ws == [] then [] else Descriptors(ws[..|ws| - 1]) + [ws[|ws| - 1].d]
  }

  function LocationTag(p: Published): string {
    if p.serviceType == Plugin then "filepath" else "ipcaddress"
  }

  function TagsOf(p: Published): seq<Part> {
    [Plain(TextItem("name", p.name)), Plain(TextItem(LocationTag(p), p.location)),
     Plain(TextItem("description", p.description))]
  }

  function InterfacePart(w: Written): Part {
    Interface([], map[], ItemsOf(w), [])
  }

  /** The tags of a service, and its first n interfaces. */
  function PartsOf(p: Published, n: nat): (parts: seq<Part>)
    requires n <= |p.interfaces|
    ensures |parts| == 3 + n
  {
    if n == 0 then TagsOf(p) else PartsOf(p, n - 1) + [InterfacePart(p.interfaces[n - 1])]
  }

  lemma {:induction false} PartsUpTo(p: Published, n: nat, k: nat)
    requires k <= n <= |p.interfaces|
    ensures PartsOf(p, n)[..3 + k] == PartsOf(p, k) && PartsOf(p, 0) == TagsOf(p)
    ensures k < n ==> PartsOf(p, n)[3 + k] == InterfacePart(p.interfaces[k])
    decreases n
  {
    hide TagsOf, InterfacePart;
    if k < n {
      PartsUpTo(p, n - 1, k);
    }
  }

  lemma {:induction false} TagTexts(p: Published)
    ensures var items := [TextItem("name", p.name), TextItem(LocationTag(p), p.location),
        TextItem("description", p.description)];
      && Texts(items, "name") == [p.name] && Texts(items, "description") == [p.description]
      && Texts(items, "filepath") == (if p.serviceType == Plugin then [p.location] else [])
      && Texts(items, "ipcaddress") == (if p.serviceType == Plugin then [] else [p.location])
      && Locations(items) == [p.location]
  {
    hide TextOf, Texts, Locations, CustomsGiven;
    var i0, i1, i2 := TextItem("name", p.name), TextItem(LocationTag(p), p.location),
      TextItem("description", p.description);
    NoTexts();
    PlainText(p.name);
    PlainText(p.location);
    PlainText(p.description);
    MoreTexts([], i0);
    MoreTexts([i0], i1);
    MoreTexts([i0, i1], i2);
    assert [] + [i0] == [i0] && [i0] + [i1] == [i0, i1] && [i0, i1] + [i2] == [i0, i1, i2];
  }

  lemma {:induction false} TagsPlain(p: Published)
    ensures Plains(TagsOf(p)) ==
              [TextItem("name", p.name), TextItem(LocationTag(p), p.location), TextItem("description", p.description)]
    ensures InterfacesGiven(TagsOf(p)) == [] && forall x :: !Taken(TagsOf(p), x)
  {
    hide Ident, InterfaceGiven, LocationTag;
    var p0, p1, p2 := Plain(TextItem("name", p.name)), Plain(TextItem(LocationTag(p), p.location)),
      Plain(TextItem("description", p.description));
    OneMore([], p0);
    OneMore([p0], p1);
    OneMore([p0, p1], p2);
    assert [] + [p0] == [p0] && [p0] + [p1] == [p0, p1] && [p0, p1] + [p2] == TagsOf(p);
  }

  /** What the parts of a service say. */
  lemma {:induction false} PartsSay(p: Published, n: nat)
    requires Publishable(p) && n <= |p.interfaces|
    ensures Plains(PartsOf(p, n)) == Plains(TagsOf(p))
    ensures InterfacesGiven(PartsOf(p, n)) == Descriptors(p.interfaces[..n])
    decreases n
  {
    hide Plains, InterfacesGiven, Taken, ItemsOf, Writable, InterfaceGiven, Ident, TagsOf;
    if n == 0 {
      TagsPlain(p);
    } else {
      var w := p.interfaces[n - 1];
      PartsSay(p, n - 1);
      OneMore(PartsOf(p, n - 1), InterfacePart(w));
      WrittenGiven(w);
      assert p.interfaces[..n][..n - 1] == p.interfaces[..n - 1];
    }
  }

  lemma {:induction false} PartsTake(p: Published, n: nat, x: string)
    requires Publishable(p) && n <= |p.interfaces|
    ensures Taken(PartsOf(p, n), x) <==> exists j | 0 <= j < n :: Ident(p.interfaces[j].d) == x
    decreases n
  {
    hide Plains, InterfacesGiven, Taken, ItemsOf, Writable, InterfaceGiven, Ident, TagsOf;
    if n == 0 {
      TagsPlain(p);
    } else {
      PartsTake(p, n - 1, x);
      OneMore(PartsOf(p, n - 1), InterfacePart(p.interfaces[n - 1]));
      WrittenGiven(p.interfaces[n - 1]);
    }
  }

  lemma {:induction false} PartsWell(p: Published)
    requires Publishable(p)
    ensures WellWritten(PartsOf(p, |p.interfaces|))
  {
    hide Writable, InterfaceGiven, InterfaceError, ItemsOf, PartsOf;
    var parts := PartsOf(p, |p.interfaces|);
    forall k | 0 <= k < |parts|
      ensures match parts[k]
              case Plain(i) => Blank(i.gap) && Blank(i.content) && i.tag != "interface"
              case Interface(gap, _, items, end) => Blank(gap) && Flat(items) && Blank(end)
    {
      if k < 3 {
        PartsUpTo(p, |p.interfaces|, 0);
        assert parts[k] == parts[..3][k];
      } else {
        WrittenGiven(p.interfaces[k - 3]);
        PartsUpTo(p, |p.interfaces|, k - 3);
      }
    }
  }

  /** What is wrong with a part of a service that was written: an address where none may be given, and an interface
      that was there before. */
  lemma {:induction false} WrittenOffence(p: Published, addresses: bool, k: nat)
    requires Publishable(p) && k < 3 + |p.interfaces|
    ensures var parts := PartsOf(p, |p.interfaces|);
      PartOffence(parts[..k], parts[k], addresses) ==
      if k < 3 then if k == 1 && p.serviceType == InterProcess && !addresses then Some(UnsupportedIpc) else None
      else if exists j | 0 <= j < k - 3 :: Ident(p.interfaces[j].d) == Ident(p.interfaces[k - 3].d)
        then Some(DuplicatedInterface)
      else None
  {
    hide Writable, InterfaceGiven, InterfaceError, ItemsOf, Ident, Taken, StartsWith, PartsOf;
    var parts := PartsOf(p, |p.interfaces|);
    if k < 3 {
      PartsUpTo(p, |p.interfaces|, 0);
      assert parts[k] == parts[..3][k];
      PlainText(p.location);
    } else {
      var n: nat := k - 3;
      WrittenGiven(p.interfaces[n]);
      PartsUpTo(p, |p.interfaces|, n);
      PartsTake(p, n, Ident(p.interfaces[n].d));
    }
  }

  lemma {:induction false} OneLocation(p: Published, n: nat)
    requires Publishable(p) && n <= |p.interfaces|
    ensures !BothGiven(PartsOf(p, n))
  {
    hide Plains, Texts, TagsOf, Writable;
    PartsSay(p, n);
    TagsPlain(p);
    TagTexts(p);
  }

  /** An address where none may be given. */
  lemma {:induction false} AddressRefused(p: Published)
    requires Publishable(p) && p.serviceType == InterProcess
    ensures ServiceError(PartsOf(p, |p.interfaces|), false) == Some(UnsupportedIpc)
  {
    hide PartOffence, BothGiven, Writable, Ident, StartsWith, PartsOf;
    WrittenOffence(p, false, 0);
    WrittenOffence(p, false, 1);
    assert FirstPartOffence(PartsOf(p, |p.interfaces|), false, 1);
  }

  /** A service without offending parts has nothing missing. */
  lemma {:induction false} NothingMissing(p: Published, addresses: bool)
    requires Publishable(p) && InoffensiveParts(PartsOf(p, |p.interfaces|), addresses)
    ensures ServiceError(PartsOf(p, |p.interfaces|), addresses).None?
  {
    hide PartOffence, Writable, Ident, StartsWith, Plains, Texts, Locations, InterfacesGiven, TagsOf, LocationTag,
      PartsOf;
    OneLocation(p, |p.interfaces|);
    PartsSay(p, |p.interfaces|);
    assert p.interfaces[..|p.interfaces|] == p.interfaces;
    TagsPlain(p);
    TagTexts(p);
  }

  /** Without such an address, only an interface that was there before offends. */
  lemma {:induction false} OnlyDuplicates(p: Published, addresses: bool, k: nat)
    requires Publishable(p) && (p.serviceType == InterProcess ==> addresses)
    requires FirstPartOffence(PartsOf(p, |p.interfaces|), addresses, k)
    ensures var parts := PartsOf(p, |p.interfaces|);
      PartOffence(parts[..k], parts[k], addresses) == Some(DuplicatedInterface) && !BothGiven(parts[..k + 1])
      && !Distinct(Descriptors(p.interfaces))
  {
    hide PartOffence, BothGiven, Writable, Ident, StartsWith, TagsOf, PartsOf;
    WrittenOffence(p, addresses, k);
    var n: nat := k - 3;
    OneLocation(p, n + 1);
    PartsUpTo(p, |p.interfaces|, n + 1);
    var j :| 0 <= j < n && Ident(p.interfaces[j].d) == Ident(p.interfaces[n].d);
    assert Descriptors(p.interfaces)[j] == p.interfaces[j].d && Descriptors(p.interfaces)[n] == p.interfaces[n].d;
  }

  lemma {:induction false} DuplicatesOffend(p: Published, addresses: bool)
    requires Publishable(p) && !Distinct(Descriptors(p.interfaces))
    ensures !InoffensiveParts(PartsOf(p, |p.interfaces|), addresses)
  {
    hide PartOffence, Writable, Ident, StartsWith, PartsOf;
    var ds := Descriptors(p.interfaces);
    var i, j :| 0 <= i < j < |ds| && Ident(ds[i]) == Ident(ds[j]);
    assert Ident(p.interfaces[i].d) == Ident(p.interfaces[j].d);
    WrittenOffence(p, addresses, 3 + j);
  }

  /** Of a service that was written, what can be wrong is an address where none may be given, or else two interfaces
      with the same identifier. */
  lemma {:induction false} WrittenError(p: Published, addresses: bool)
    requires Publishable(p)
    ensures ServiceError(PartsOf(p, |p.interfaces|), addresses) ==
              if p.serviceType == InterProcess && !addresses then Some(UnsupportedIpc)
              else if !Distinct(Descriptors(p.interfaces)) then Some(DuplicatedInterface)
              else None
  {
    hide PartOffence, BothGiven, Ident, StartsWith, PartsOf, Distinct, Publishable, Plains, Texts, Locations,
      InterfacesGiven, LastOr, Descriptors;
    var parts := PartsOf(p, |p.interfaces|);
    if p.serviceType == InterProcess && !addresses {
      AddressRefused(p);
    } else {
      forall k: nat | FirstPartOffence(parts, addresses, k)
        ensures PartOffence(parts[..k], parts[k], addresses) == Some(DuplicatedInterface)
        ensures !BothGiven(parts[..k + 1]) && !Distinct(Descriptors(p.interfaces))
      {
        OnlyDuplicates(p, addresses, k);
      }
      if InoffensiveParts(parts, addresses) {
        NothingMissing(p, addresses);
        if !Distinct(Descriptors(p.interfaces)) {
          DuplicatesOffend(p, addresses);
        }
      } else {
        var k: nat :| k < |parts| && PartOffence(parts[..k], parts[k], addresses).Some?;
        FirstPart(parts, addresses, k);
        var j: nat :| FirstPartOffence(parts, addresses, j);
        assert PartOffence(parts[..j], parts[j], addresses) == Some(DuplicatedInterface);
      }
    }
  }

  // ---------------------------------------------------------------------------------------------
  // The round trip
  // ---------------------------------------------------------------------------------------------

  /** The kinds of document a service can be written as: a service alone, or within an element that gives a version. */
  datatype Format = ServiceOnly | Framed(version: string)

  function DocumentOf(p: Published, f: Format): XmlDocument {
    var service := ServiceNode([], map[], PartsOf(p, |p.interfaces|), []);
    match f
    case ServiceOnly => Bare(service, [])
    case Framed(version) => Sfw([], map["version" := version], service, [], [])
  }

  function DocumentTokens(p: Published, f: Format): seq<Token> {
    TokensOf(DocumentOf(p, f))
  }

  /** The version number of a format, which is 1.0 for a service alone. */
  function FormatVersion(f: Format): Option<Version> {
    match f
    case ServiceOnly => Some(Version(1, 0))
    case Framed(version) => if CheckVersion(version) then Some(TransformVersion(version)) else None
  }

  /** Every service with a name, a location and interfaces can be written out and read back. Reading succeeds exactly
      if the version is 1.0 or 1.1, an address is given only in 1.1, and no two interfaces have the same identifier;
      what is read is then what was written. */
  lemma {:induction false} RoundTrip(p: Published, f: Format)
    requires Publishable(p)
    ensures var (m, ok) := Document(DocumentTokens(p, f));
      match FormatVersion(f)
      case None => !ok && m.latestError == InvalidXmlVersion
      case Some(v) =>
        if v.major > 1 || v.minor > 1 then !ok && m.latestError == UnsupportedXmlVersion
        else if p.serviceType == InterProcess && v.minor == 0 then !ok && m.latestError == UnsupportedIpc
        else if !Distinct(Descriptors(p.interfaces)) then !ok && m.latestError == DuplicatedInterface
        else ok && ReadBack(m, p)
  {
    hide Document, TokensOf, ServiceError, Says, CheckVersion, TransformVersion, Publishable, PartsOf, Distinct;
    PartsWell(p);
    XmlVersions();
    DocumentMeans(DocumentOf(p, f));
    WrittenError(p, false);
    WrittenError(p, true);
    if f.Framed? && CheckVersion(f.version) {
      ParsedRange(f.version);
    }
    if Says(Document(DocumentTokens(p, f)).0, PartsOf(p, |p.interfaces|)) {
      SaysPublished(Document(DocumentTokens(p, f)).0, p);
    }
  }

  /** What is read back of a service. */
  ghost predicate ReadBack(m: MetaData, p: Published) {
    && m.serviceName == p.name && m.serviceLocation == p.location && m.serviceDescription == p.description
    && m.serviceType == p.serviceType && |m.interfaces| == |p.interfaces|
    && forall k | 0 <= k < |p.interfaces| ::
         m.interfaces[k] ==
         p.interfaces[k].d.(
         serviceName := p.name,
         attributes := p.interfaces[k].d.attributes.(
         location := Some(p.location), serviceDescription := Some(p.description), serviceType := Some(p.serviceType)))
  }

  lemma {:induction false} SaysPublished(m: MetaData, p: Published)
    requires Publishable(p) && Says(m, PartsOf(p, |p.interfaces|))
    ensures ReadBack(m, p)
  {
    hide Plains, Texts, Locations, InterfacesGiven, TagsOf, PartsOf, Writable;
    PartsSay(p, |p.interfaces|);
    assert p.interfaces[..|p.interfaces|] == p.interfaces;
    TagsPlain(p);
    TagTexts(p);
  }
}
