/** What src/serviceframework/servicemetadata.cpp makes of a stream of XML tokens: each element is a fold over
  the tokens up to its end. */
module ServiceXml {
  import opened Text
  import opened Version
  import opened Descriptor
  import opened XmlReader

  /** The error codes in the order of the source. The first one has the value 0, which also means that
      there was no error. */
  datatype Error =
    | NoService | NoServiceName | NoServicePath | NoServiceInterface | NoInterfaceVersion | NoInterfaceName
    | UnableToOpenFile | InvalidXmlFile | ParseService | ParseInterface | DuplicatedInterface | InvalidVersion
    | DuplicatedTag | InvalidCustomTag | DuplicatedCustomKey | MultipleServiceTypes | InvalidFilePath
    | InvalidXmlVersion | UnsupportedIpc | UnsupportedXmlVersion

  const NO_ERROR: Error := NoService

  const XML_MAX: string := "1.1"

  /** The fields of the parser that describe what it has read. */
  datatype MetaData = MetaData(
    xmlVersion: string,
    serviceName: string,
    serviceLocation: string,
    serviceDescription: string,
    serviceType: ServiceType,
    interfaces: seq<Descriptor>,
    duplicates: set<string>,
    latestIndex: map<string, nat>,
    latestError: Error)

  const CLEARED := MetaData("1.0", "", "", "", Plugin, [], {}, map[], NO_ERROR)

  const NEW_INTERFACE := Descriptor("", "", -1, -1, NO_ATTRIBUTES, map[], UserScope)

  // ---------------------------------------------------------------------------------------------
  // <interface>
  // ---------------------------------------------------------------------------------------------

  /** An interface being read, and how often each of its tags was seen. */
  datatype Iface = Iface(d: Descriptor, names: nat, versions: nat, capabilities: nat, descriptions: nat,
    error: Option<Error>)

  const NEW_IFACE := Iface(NEW_INTERFACE, 0, 0, 0, 0, None)

  function Named(s: Iface, text: string): Iface {
    s.(d := s.d.(interfaceName := text), names := s.names + 1)
  }

  function Described(s: Iface, text: string): Iface {
    s.(d := s.d.(attributes := s.d.attributes.(interfaceDescription := Some(text))), descriptions := s.descriptions + 1)
  }

  function Versioned(s: Iface, text: string): Iface {
    if text == "" then s
    else if CheckVersion(text) then
      s.(d := s.d.(major := TransformVersion(text).major, minor := TransformVersion(text).minor),
        versions := s.versions + 1)
    else s.(error := Some(InvalidVersion))
  }

  function Capable(s: Iface, text: string): Iface {
    s.(d := s.d.(attributes := s.d.attributes.(capabilities := Some(NonEmpty(SplitAt(text, ','))))),
      capabilities := s.capabilities + 1)
  }

  function Customized(s: Iface, key: string, text: string): Iface {
    s.(d := s.d.(customAttributes := s.d.customAttributes[key := text]))
  }

  /** One token of an interface. */
  function InterfaceTag(s: Iface, r: Reader): (res: (Iface, Reader))
    ensures Left(res.1) <= Left(r)
  {
    match r.token
    case StartElement(tag, attributes) =>
      var (text, end) := ElementText(r);
      if tag == "name" then (Named(s, text), end)
      else if tag == "description" then (Described(s, text), end)
      else if tag == "version" then (Versioned(s, text), end)
      else if tag == "capabilities" then (Capable(s, text), end)
      else if tag == "customproperty" then
        if "key" !in attributes || attributes["key"] == "" then (s.(error := Some(InvalidCustomTag)), r)
        else if attributes["key"] in s.d.customAttributes then (s.(error := Some(DuplicatedCustomKey)), r)
        else (Customized(s, attributes["key"], text), end)
      else (s.(error := Some(ParseInterface)), r)
    case EndElement(_) => (s.(error := Some(ParseInterface)), r)
    case Invalid => (s.(error := Some(InvalidXmlFile)), r)
    case _ => (s, r)
  }

  function InterfaceLoop(s: Iface, r: Reader): (res: (Iface, Reader))
    ensures Left(res.1) <= Left(r)
    decreases Left(r)
  {
    if s.error.Some? || AtEnd(r) then (s, r)
    else
      var n := Next(r);
      if IsEnd(n, "interface") then (s, n)
      else
        var (s', r') := InterfaceTag(s, n);
        InterfaceLoop(s', r')
  }

  /** The checks at the end of an interface. */
  function InterfaceChecked(s: Iface): Iface {
    if s.error.Some? then s
    else if s.versions == 0 then s.(error := Some(NoInterfaceVersion))
    else if s.d.interfaceName == "" then s.(error := Some(NoInterfaceName))
    else if s.names > 1 || s.versions > 1 || s.capabilities > 1 || s.descriptions > 1
      then s.(error := Some(DuplicatedTag))
    else s
  }

  /** QString::number of a version number that was parsed. */
  function Digits(n: int): string {
    if n >= 0 then Decimal(n) else "-1"
  }

  /** What tells interfaces apart: the name directly followed by the version. */
  function Ident(d: Descriptor): string {
    Lower(d.interfaceName + Digits(d.major) + "." + Digits(d.minor))
  }

  predicate IsLatest(m: MetaData, d: Descriptor) {
    var name := Lower(d.interfaceName);
    name !in m.latestIndex
      || (m.latestIndex[name] < |m.interfaces| && LowerVersion(m.interfaces[m.latestIndex[name]], d))
  }

  function Added(m: MetaData, d: Descriptor): MetaData {
    m.(duplicates := m.duplicates + {Ident(d)},
       interfaces := m.interfaces + [d],
       latestIndex := if IsLatest(m, d) then m.latestIndex[Lower(d.interfaceName) := |m.interfaces|] else m.latestIndex)
  }

  datatype Outcome = Outcome(m: MetaData, reader: Reader, ok: bool)

  /** processInterfaceElement. */
  function InterfaceElement(m: MetaData, r: Reader): (o: Outcome)
    ensures Left(o.reader) <= Left(r)
  {
    var (s0, end) := InterfaceLoop(NEW_IFACE, r);
    var s := InterfaceChecked(s0);
    if s.error.Some? then Outcome(m.(latestError := s.error.value), end, false)
    else if Ident(s.d) in m.duplicates then Outcome(m.(latestError := DuplicatedInterface), end, false)
    else Outcome(Added(m, s.d), end, true)
  }

  // ---------------------------------------------------------------------------------------------
  // <service>
  // ---------------------------------------------------------------------------------------------

  datatype Service = Service(m: MetaData, names: nat, descriptions: nat, filePaths: nat, ipcAddresses: nat,
    failed: bool)

  function Fail(s: Service, e: Error): Service {
    s.(m := s.m.(latestError := e), failed := true)
  }

  function Located(s: Service, text: string): Service {
    var s1 := s.(m := s.m.(serviceLocation := text));
    if StartsWith(text, IPC_PREFIX) then Fail(s1, InvalidFilePath) else s1
  }

  /** One token of a service. */
  function ServiceTag(s: Service, r: Reader): (res: (Service, Reader))
    ensures Left(res.1) <= Left(r)
  {
    match r.token
    case StartElement(tag, _) =>
      var (text, end) := ElementText(r);
      if tag == "name" then (s.(m := s.m.(serviceName := text), names := s.names + 1), end)
      else if tag == "description"
        then (s.(m := s.m.(serviceDescription := text), descriptions := s.descriptions + 1), end)
      else if tag == "filepath" then (Located(s.(filePaths := s.filePaths + 1), text), end)
      else if tag == "ipcaddress" then
        if GreaterThan(s.m.xmlVersion, "1.0") then (Located(s.(ipcAddresses := s.ipcAddresses + 1), text), end)
        else (Fail(s, UnsupportedIpc), r)
      else if tag == "interface" then
        var o := InterfaceElement(s.m, r);
        (s.(m := o.m, failed := !o.ok), o.reader)
      else if tag == "version" then (s, end)
      else (Fail(s, ParseService), r)
    case EndElement(_) => (Fail(s, ParseService), r)
    case Invalid => (Fail(s, InvalidXmlFile), r)
    case _ => (s, r)
  }

  function ServiceLoop(s: Service, r: Reader): (res: (Service, Reader))
    ensures Left(res.1) <= Left(r)
    decreases Left(r)
  {
    if s.failed || AtEnd(r) then (s, r)
    else
      var n := Next(r);
      if IsEnd(n, "service") then (s, n)
      else
        var (s', r') := ServiceTag(s, n);
        ServiceLoop(s', r')
  }

  /** The checks at the end of a service. */
  function ServiceChecked(s: Service): Service {
    var s1 := if s.failed then s
              else if s.m.serviceName == "" then Fail(s, NoServiceName)
              else if s.m.serviceLocation == "" then Fail(s, NoServicePath)
              else s;
    var s2 := if s.ipcAddresses > 0 then s1.(m := s1.m.(serviceType := InterProcess)) else s1;
    var s3 := if s.filePaths > 0 && s.ipcAddresses > 0 then Fail(s2, MultipleServiceTypes) else s2;
    var s4 := if !s3.failed && (s.names > 1 || s.descriptions > 1 || s.filePaths > 1 || s.ipcAddresses > 1)
              then Fail(s3, DuplicatedTag) else s3;
    if s4.m.interfaces == [] && s4.m.latestError == NO_ERROR then Fail(s4, NoServiceInterface) else s4
  }

  /** An interface of the service that was read. */
  function OfService(m: MetaData, d: Descriptor): Descriptor {
    d.(serviceName := m.serviceName,
       attributes := d.attributes.(location := Some(m.serviceLocation),
         serviceDescription := Some(m.serviceDescription), serviceType := Some(m.serviceType)))
  }

  function AllOfService(m: MetaData, ds: seq<Descriptor>): (r: seq<Descriptor>)
    ensures |r| == |ds| && forall i | 0 <= i < |ds| :: r[i] == OfService(m, ds[i])
  {
    if ds == [] then [] else [OfService(m, ds[0])] + AllOfService(m, ds[1..])
  }

  /** processServiceElement. */
  function ServiceElement(m: MetaData, r: Reader): (o: Outcome)
    ensures Left(o.reader) <= Left(r)
  {
    var (s0, end) := ServiceLoop(Service(m, 0, 0, 0, 0, false), r);
    var s := ServiceChecked(s0);
    Outcome(s.m.(interfaces := AllOfService(s.m, s.m.interfaces)), end, !s.failed)
  }

  // ---------------------------------------------------------------------------------------------
  // <SFW> and the document
  // ---------------------------------------------------------------------------------------------

  function VersionLoop(o: Outcome): (res: Outcome)
    ensures Left(res.reader) <= Left(o.reader)
    decreases Left(o.reader)
  {
    if !o.ok || AtEnd(o.reader) then o
    else
      var n := Next(o.reader);
      if IsStart(n, "service") then VersionLoop(ServiceElement(o.m, n))
      else if IsEnd(n, "SFW") then o.(reader := n)
      else if n.token.StartElement? then Outcome(o.m.(latestError := NoService), n, false)
      else if n.token.Invalid? then Outcome(o.m.(latestError := InvalidXmlFile), n, false)
      else VersionLoop(o.(reader := n))
  }

  /** processVersionElement. */
  function VersionElement(m: MetaData, r: Reader): (o: Outcome)
    requires r.token.StartElement?
    ensures Left(o.reader) <= Left(r)
  {
    if "version" !in r.token.attributes then Outcome(m.(latestError := InvalidXmlVersion), r, false)
    else
      var version := r.token.attributes["version"];
      var m1 := m.(xmlVersion := version);
      if version == "" || !CheckVersion(version) then Outcome(m1.(latestError := InvalidXmlVersion), r, false)
      else if GreaterThan(version, XML_MAX) then Outcome(m1.(latestError := UnsupportedXmlVersion), r, false)
      else VersionLoop(Outcome(m1, r, true))
  }

  function DocumentLoop(o: Outcome): (res: Outcome)
    decreases Left(o.reader)
  {
    if !o.ok || AtEnd(o.reader) then o
    else
      var n := Next(o.reader);
      if IsStart(n, "SFW") then DocumentLoop(VersionElement(o.m, n))
      else if IsStart(n, "service") then DocumentLoop(ServiceElement(o.m, n))
      else if n.token.StartElement? then Outcome(o.m.(latestError := NoService), n, false)
      else if n.token.Invalid? then Outcome(o.m.(latestError := InvalidXmlFile), n, false)
      else DocumentLoop(o.(reader := n))
  }

  /** extractMetadata on a device that opens: on an error all that was read is forgotten. */
  function Document(tokens: seq<Token>): (res: (MetaData, bool)) {
    var o := DocumentLoop(Outcome(CLEARED, Reader(Other, tokens), true));
    if o.ok then (o.m, true) else (CLEARED.(latestError := o.m.latestError), false)
  }
}
