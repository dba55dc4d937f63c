/** What holds of every description that the service metadata parser accepts. */
module ServiceXmlFacts {
  import opened Text
  import opened Version
  import opened Descriptor
  import opened XmlReader
  import opened ServiceXml

  // ---------------------------------------------------------------------------------------------
  // Accepted interfaces
  // ---------------------------------------------------------------------------------------------

  /** An interface with a name and a version, whose capabilities have names without commas. Its scope is not
      set, which means the user's. */
  predicate ParsedInterface(d: Descriptor) {
    && d.interfaceName != ""
    && 1 <= d.major <= INT_MAX && 0 <= d.minor <= INT_MAX
    && (d.attributes.capabilities.Some? ==> ListOfParts(d.attributes.capabilities.value))
    && "" !in d.customAttributes && d.scope == UserScope
  }

  predicate SameKey(d: Descriptor, e: Descriptor) {
    SameName(d.interfaceName, e.interfaceName) && d.major == e.major && d.minor == e.minor
  }

  ghost predicate Distinct(ds: seq<Descriptor>) {
    forall i, j | 0 <= i < j < |ds| :: Ident(ds[i]) != Ident(ds[j])
  }

  ghost predicate DuplicatesOk(ds: seq<Descriptor>, duplicates: set<string>) {
    && (forall i | 0 <= i < |ds| :: Ident(ds[i]) in duplicates)
    && (forall x | x in duplicates :: exists i :: 0 <= i < |ds| && Ident(ds[i]) == x)
  }

  /** The index has exactly the names of the interfaces, each with the place of its greatest version. */
  ghost predicate LatestOk(ds: seq<Descriptor>, index: map<string, nat>) {
    && (forall n | n in index :: index[n] < |ds| && Lower(ds[index[n]].interfaceName) == n)
    && (forall i | 0 <= i < |ds| ::
      Lower(ds[i].interfaceName) in index && !LowerVersion(ds[index[Lower(ds[i].interfaceName)]], ds[i]))
  }

  ghost predicate SoundTables(ds: seq<Descriptor>, duplicates: set<string>, index: map<string, nat>) {
    && (forall i | 0 <= i < |ds| :: ParsedInterface(ds[i]))
    && Distinct(ds) && DuplicatesOk(ds, duplicates) && LatestOk(ds, index)
  }

  ghost predicate Sound(m: MetaData) {
    SoundTables(m.interfaces, m.duplicates, m.latestIndex)
  }

  /** Interfaces with different identifiers differ in name or version. The converse does not hold: see
      `KeysCollide`. */
  lemma DistinctKeys(d: Descriptor, e: Descriptor)
    requires SameKey(d, e)
    ensures Ident(d) == Ident(e)
  {
    LowerConcat(d.interfaceName, Digits(d.major));
    LowerConcat(d.interfaceName + Digits(d.major), ".");
    LowerConcat(d.interfaceName + Digits(d.major) + ".", Digits(d.minor));
    LowerConcat(e.interfaceName, Digits(e.major));
    LowerConcat(e.interfaceName + Digits(e.major), ".");
    LowerConcat(e.interfaceName + Digits(e.major) + ".", Digits(e.minor));
  }

  // ---------------------------------------------------------------------------------------------
  // One interface
  // ---------------------------------------------------------------------------------------------

  ghost predicate Reading(s: Iface) {
    && (s.versions > 0 ==> 1 <= s.d.major <= INT_MAX && 0 <= s.d.minor <= INT_MAX)
    && (s.d.attributes.capabilities.Some? ==> ListOfParts(s.d.attributes.capabilities.value))
    && "" !in s.d.customAttributes && s.d.scope == UserScope
  }

  lemma {:induction false} ReadingText(s: Iface, text: string)
    requires Reading(s)
    ensures Reading(Named(s, text)) && Reading(Described(s, text)) && Reading(Versioned(s, text))
              && Reading(Capable(s, text))
  {
    ReadingVersion(s, text);
    PartsListed(text);
    hide ListOfParts, NonEmpty, SplitAt, Versioned;
  }

  lemma {:induction false} ReadingVersion(s: Iface, text: string)
    requires Reading(s)
    ensures Reading(Versioned(s, text))
  {
    hide Parse, TransformVersion, CheckVersion, ListOfParts;
    if CheckVersion(text) {
      ParsedRange(text);
    }
  }

  lemma {:induction false} PartsListed(text: string)
    ensures ListOfParts(NonEmpty(SplitAt(text, ',')))
  {
    hide NonEmpty, SplitAt;
  }

  lemma {:induction false} ReadingCustom(s: Iface, key: string, text: string)
    requires Reading(s) && key != ""
    ensures Reading(Customized(s, key, text))
  {
    hide ListOfParts;
  }

  lemma {:induction false} ReadingTag(s: Iface, r: Reader)
    requires Reading(s)
    ensures Reading(InterfaceTag(s, r).0)
  {
    if r.token.StartElement? {
      var text := ElementText(r).0;
      ReadingText(s, text);
      if "key" in r.token.attributes && r.token.attributes["key"] != "" {
        ReadingCustom(s, r.token.attributes["key"], text);
      }
    }
    hide ElementText, Named, Described, Versioned, Capable, Customized, ListOfParts;
  }

  lemma {:induction false} ReadingLoop(s: Iface, r: Reader)
    requires Reading(s)
    ensures Reading(InterfaceLoop(s, r).0)
    decreases Left(r)
  {
    if s.error.None? && !AtEnd(r) && !IsEnd(Next(r), "interface") {
      ReadingTag(s, Next(r));
      var (s', r') := InterfaceTag(s, Next(r));
      hide Reading, InterfaceTag;
      ReadingLoop(s', r');
    }
  }

  lemma AddedDuplicates(ds: seq<Descriptor>, duplicates: set<string>, d: Descriptor)
    requires Distinct(ds) && DuplicatesOk(ds, duplicates) && Ident(d) !in duplicates
    ensures Distinct(ds + [d]) && DuplicatesOk(ds + [d], duplicates + {Ident(d)})
  {
    hide Ident;
    var es := ds + [d];
    forall x | x in duplicates + {Ident(d)}
      ensures exists i :: 0 <= i < |es| && Ident(es[i]) == x
    {
      if x in duplicates {
        var i :| 0 <= i < |ds| && Ident(ds[i]) == x;
        assert es[i] == ds[i];
      } else {
        assert es[|ds|] == d;
      }
    }
  }

  lemma AddedSound(m: MetaData, d: Descriptor)
    requires Sound(m) && ParsedInterface(d) && Ident(d) !in m.duplicates
    ensures Sound(Added(m, d))
  {
    hide Ident, ParsedInterface, Distinct, DuplicatesOk, LatestOk, IsLatest;
    AddedDuplicates(m.interfaces, m.duplicates, d);
    AddedLatest(m, d);
  }

  lemma {:induction false} AddedLatest(m: MetaData, d: Descriptor)
    requires LatestOk(m.interfaces, m.latestIndex)
    ensures LatestOk(Added(m, d).interfaces, Added(m, d).latestIndex)
  {
    hide LatestOk, Lower, Ident;
    LatestInRange(m.interfaces, m.latestIndex);
    if IsLatest(m, d) {
      NewLatest(m.interfaces, m.latestIndex, d);
    } else {
      OldLatest(m.interfaces, m.latestIndex, d);
    }
  }

  lemma {:induction false} LatestInRange(ds: seq<Descriptor>, index: map<string, nat>)
    requires LatestOk(ds, index)
    ensures forall n | n in index :: index[n] < |ds|
  {
    hide Lower;
  }

  /** The index moves on to a later version, or to a new name. */
  lemma {:induction false} NewLatest(ds: seq<Descriptor>, index: map<string, nat>, d: Descriptor)
    requires LatestOk(ds, index)
    requires var name := Lower(d.interfaceName);
               name in index ==> index[name] < |ds| && LowerVersion(ds[index[name]], d)
    ensures LatestOk(ds + [d], index[Lower(d.interfaceName) := |ds|])
  {
    hide Lower;
    var es, name := ds + [d], Lower(d.interfaceName);
    var index' := index[name := |ds|];
    forall i | 0 <= i < |es|
      ensures Lower(es[i].interfaceName) in index' && !LowerVersion(es[index'[Lower(es[i].interfaceName)]], es[i])
    {
      if i < |ds| {
        assert es[i] == ds[i];
        NotLower(ds, index, i);
      }
    }
  }

  lemma {:induction false} OldLatest(ds: seq<Descriptor>, index: map<string, nat>, d: Descriptor)
    requires LatestOk(ds, index)
    requires var name := Lower(d.interfaceName);
               name in index && index[name] < |ds| && !LowerVersion(ds[index[name]], d)
    ensures LatestOk(ds + [d], index)
  {
    hide Lower;
    var es := ds + [d];
    forall i | 0 <= i < |es|
      ensures Lower(es[i].interfaceName) in index && !LowerVersion(es[index[Lower(es[i].interfaceName)]], es[i])
    {
      if i < |ds| {
        assert es[i] == ds[i];
        NotLower(ds, index, i);
      }
    }
  }

  lemma {:induction false} NotLower(ds: seq<Descriptor>, index: map<string, nat>, i: nat)
    requires LatestOk(ds, index) && i < |ds|
    ensures var name := Lower(ds[i].interfaceName);
              name in index && index[name] < |ds| && !LowerVersion(ds[index[name]], ds[i])
  {
    hide Lower;
  }

  lemma InterfaceSound(m: MetaData, r: Reader)
    requires Sound(m)
    ensures Sound(InterfaceElement(m, r).m)
  {
    ReadingLoop(NEW_IFACE, r);
    var s := InterfaceChecked(InterfaceLoop(NEW_IFACE, r).0);
    hide InterfaceLoop;
    if s.error.None? && Ident(s.d) !in m.duplicates {
      assert ParsedInterface(s.d);
      AddedSound(m, s.d);
    }
    hide Added, ParsedInterface, Distinct, DuplicatesOk, LatestOk, Reading;
  }

  // ---------------------------------------------------------------------------------------------
  // Services and documents
  // ---------------------------------------------------------------------------------------------

  ghost predicate SameTables(m: MetaData, m': MetaData) {
    m'.interfaces == m.interfaces && m'.duplicates == m.duplicates && m'.latestIndex == m.latestIndex
  }

  lemma TagTables(s: Service, r: Reader)
    ensures if IsStart(r, "interface") then ServiceTag(s, r).0.m == InterfaceElement(s.m, r).m
            else SameTables(s.m, ServiceTag(s, r).0.m)
  {
    hide InterfaceElement, ElementText, GreaterThan, StartsWith;
  }

  lemma ServiceTagSound(s: Service, r: Reader)
    requires Sound(s.m)
    ensures Sound(ServiceTag(s, r).0.m)
  {
    hide SoundTables, ServiceTag, InterfaceElement;
    TagTables(s, r);
    if IsStart(r, "interface") {
      InterfaceSound(s.m, r);
    }
  }

  lemma {:induction false} ServiceLoopSound(s: Service, r: Reader)
    requires Sound(s.m)
    ensures Sound(ServiceLoop(s, r).0.m)
    decreases Left(r)
  {
    if !s.failed && !AtEnd(r) && !IsEnd(Next(r), "service") {
      var n := Next(r);
      var (s', r') := ServiceTag(s, n);
      ServiceTagSound(s, n);
      hide Sound, ServiceTag;
      ServiceLoopSound(s', r');
    }
  }

  /** The same interfaces, up to what is not part of their keys. */
  ghost predicate SameInterfaces(ds: seq<Descriptor>, es: seq<Descriptor>) {
    && |ds| == |es|
    && forall i | 0 <= i < |ds| ::
         Ident(es[i]) == Ident(ds[i]) && es[i].interfaceName == ds[i].interfaceName
         && es[i].major == ds[i].major && es[i].minor == ds[i].minor
           && (ParsedInterface(ds[i]) ==> ParsedInterface(es[i]))
  }

  lemma SameDuplicates(ds: seq<Descriptor>, es: seq<Descriptor>, duplicates: set<string>)
    requires SameInterfaces(ds, es) && DuplicatesOk(ds, duplicates)
    ensures DuplicatesOk(es, duplicates)
  {
    hide Ident, ParsedInterface;
    forall x | x in duplicates
      ensures exists i :: 0 <= i < |es| && Ident(es[i]) == x
    {
      var i :| 0 <= i < |ds| && Ident(ds[i]) == x;
      assert Ident(es[i]) == x;
    }
  }

  lemma SameDistinct(ds: seq<Descriptor>, es: seq<Descriptor>)
    requires SameInterfaces(ds, es) && Distinct(ds)
    ensures Distinct(es)
  {
    hide Ident, ParsedInterface;
  }

  lemma SameLatest(ds: seq<Descriptor>, es: seq<Descriptor>, index: map<string, nat>)
    requires SameInterfaces(ds, es) && LatestOk(ds, index)
    ensures LatestOk(es, index)
  {
    hide Ident, ParsedInterface, Lower;
    forall n | n in index
      ensures index[n] < |es| && Lower(es[index[n]].interfaceName) == n
    {
      assert es[index[n]].interfaceName == ds[index[n]].interfaceName;
    }
    forall i | 0 <= i < |es|
      ensures Lower(es[i].interfaceName) in index && !LowerVersion(es[index[Lower(es[i].interfaceName)]], es[i])
    {
      assert es[i].interfaceName == ds[i].interfaceName;
    }
  }

  lemma SameSound(ds: seq<Descriptor>, es: seq<Descriptor>, duplicates: set<string>, index: map<string, nat>)
    requires SameInterfaces(ds, es) && SoundTables(ds, duplicates, index)
    ensures SoundTables(es, duplicates, index)
  {
    SameDuplicates(ds, es, duplicates);
    SameDistinct(ds, es);
    SameLatest(ds, es, index);
    hide Ident, ParsedInterface, Distinct, DuplicatesOk, LatestOk;
  }

  lemma {:induction false} OfServiceSame(m: MetaData, d: Descriptor)
    ensures var e := OfService(m, d);
      Ident(e) == Ident(d) && e.interfaceName == d.interfaceName && e.major == d.major && e.minor == d.minor
      && (ParsedInterface(d) ==> ParsedInterface(e))
  {
    hide Lower, Digits;
  }

  lemma {:induction false} AllOfServiceSame(m: MetaData, ds: seq<Descriptor>)
    ensures SameInterfaces(ds, AllOfService(m, ds))
  {
    hide AllOfService, OfService, Ident, ParsedInterface;
    var es := AllOfService(m, ds);
    forall i | 0 <= i < |ds|
      ensures es[i] == OfService(m, ds[i])
      ensures Ident(es[i]) == Ident(ds[i]) && es[i].interfaceName == ds[i].interfaceName
      ensures es[i].major == ds[i].major && es[i].minor == ds[i].minor
                && (ParsedInterface(ds[i]) ==> ParsedInterface(es[i]))
    {
      OfServiceSame(m, ds[i]);
    }
  }

  lemma {:induction false} OfServiceSound(m: MetaData)
    requires Sound(m)
    ensures Sound(m.(interfaces := AllOfService(m, m.interfaces)))
  {
    hide SoundTables, SameInterfaces, AllOfService;
    AllOfServiceSame(m, m.interfaces);
    SameSound(m.interfaces, AllOfService(m, m.interfaces), m.duplicates, m.latestIndex);
  }

  lemma CheckedTables(s: Service)
    ensures SameTables(s.m, ServiceChecked(s).m)
  {
  }

  lemma ServiceSound(m: MetaData, r: Reader)
    requires Sound(m)
    ensures Sound(ServiceElement(m, r).m)
  {
    hide SoundTables, ServiceLoop, ServiceChecked, AllOfService;
    var s0 := Service(m, 0, 0, 0, 0, false);
    ServiceLoopSound(s0, r);
    var s := ServiceLoop(s0, r).0;
    CheckedTables(s);
    OfServiceSound(ServiceChecked(s).m);
  }

  /** All interfaces belong to the service read last, unless there are none. */
  ghost predicate Carried(m: MetaData) {
    forall i | 0 <= i < |m.interfaces| :: OfService(m, m.interfaces[i]) == m.interfaces[i]
  }

  lemma ServiceCarried(m: MetaData, r: Reader)
    ensures Carried(ServiceElement(m, r).m)
  {
    hide ServiceLoop, ServiceChecked;
  }

  lemma {:induction false} VersionLoopSound(o: Outcome)
    requires Sound(o.m) && Carried(o.m)
    ensures Sound(VersionLoop(o).m) && Carried(VersionLoop(o).m)
    decreases Left(o.reader)
  {
    if o.ok && !AtEnd(o.reader) {
      var n := Next(o.reader);
      if IsStart(n, "service") {
        ServiceSound(o.m, n);
        ServiceCarried(o.m, n);
        hide Sound, Carried, ServiceElement;
        VersionLoopSound(ServiceElement(o.m, n));
      } else if !IsEnd(n, "SFW") && !n.token.StartElement? && !n.token.Invalid? {
        hide Sound, Carried;
        VersionLoopSound(o.(reader := n));
      }
    }
  }

  lemma {:induction false} DocumentLoopSound(o: Outcome)
    requires Sound(o.m) && Carried(o.m)
    ensures Sound(DocumentLoop(o).m) && Carried(DocumentLoop(o).m)
    decreases Left(o.reader)
  {
    if o.ok && !AtEnd(o.reader) {
      var n := Next(o.reader);
      if IsStart(n, "SFW") {
        VersionSound(o.m, n);
        hide Sound, Carried, VersionElement;
        DocumentLoopSound(VersionElement(o.m, n));
      } else if IsStart(n, "service") {
        ServiceSound(o.m, n);
        ServiceCarried(o.m, n);
        hide Sound, Carried, ServiceElement;
        DocumentLoopSound(ServiceElement(o.m, n));
      } else if !n.token.StartElement? && !n.token.Invalid? {
        hide Sound, Carried;
        DocumentLoopSound(o.(reader := n));
      }
    }
  }

  lemma VersionSound(m: MetaData, r: Reader)
    requires r.token.StartElement? && Sound(m) && Carried(m)
    ensures Sound(VersionElement(m, r).m) && Carried(VersionElement(m, r).m)
  {
    hide SoundTables, VersionLoop, CheckVersion, GreaterThan;
    var version := if "version" in r.token.attributes then r.token.attributes["version"] else "";
    var m1 := m.(xmlVersion := version);
    SameCarried(m, m1);
    VersionLoopSound(Outcome(m1, r, true));
    var o := VersionElement(m, r);
    assert o == VersionLoop(Outcome(m1, r, true)) || o.m == m.(latestError := o.m.latestError)
      || o.m == m1.(latestError := o.m.latestError);
    SameCarried(m, m.(latestError := o.m.latestError));
    SameCarried(m, m1.(latestError := o.m.latestError));
    hide VersionElement, Carried;
  }

  lemma SameCarried(m: MetaData, m': MetaData)
    requires Carried(m)
    requires m' == m.(xmlVersion := m'.xmlVersion, latestError := m'.latestError)
    ensures Carried(m')
  {
    forall i | 0 <= i < |m'.interfaces|
      ensures OfService(m', m'.interfaces[i]) == m'.interfaces[i]
    {
      assert OfService(m, m.interfaces[i]) == m.interfaces[i];
    }
  }

  /** Every stream of tokens: what is read is sound, and all of it belongs to one service. */
  lemma DocumentSound(tokens: seq<Token>)
    ensures Sound(Document(tokens).0) && Carried(Document(tokens).0)
  {
    DocumentLoopSound(Outcome(CLEARED, Reader(Other, tokens), true));
    hide DocumentLoop;
  }

  // ---------------------------------------------------------------------------------------------
  // One service
  // ---------------------------------------------------------------------------------------------

  /** What the tags counted so far say about the location and the name. */
  ghost predicate Counted(s: Service) {
    && (s.m.serviceLocation != "" ==> s.filePaths + s.ipcAddresses > 0)
    && (s.m.serviceName != "" ==> s.names > 0)
    && (!s.failed ==> !StartsWith(s.m.serviceLocation, IPC_PREFIX))
    && s.m.serviceType == Plugin
    && (!s.failed ==> s.m.latestError == NO_ERROR)
  }

  lemma InterfaceKeepsService(m: MetaData, r: Reader)
    ensures var o := InterfaceElement(m, r);
      && o.m.serviceName == m.serviceName && o.m.serviceLocation == m.serviceLocation
        && o.m.serviceType == m.serviceType
      && (o.ok ==> o.m.latestError == m.latestError)
  {
    hide InterfaceLoop, InterfaceChecked, Ident, IsLatest;
  }

  lemma TagCounted(s: Service, r: Reader)
    requires Counted(s) && !s.failed
    ensures Counted(ServiceTag(s, r).0)
  {
    if IsStart(r, "interface") {
      InterfaceKeepsService(s.m, r);
    }
    hide InterfaceElement, ElementText, GreaterThan, StartsWith;
  }

  lemma {:induction false} LoopCounted(s: Service, r: Reader)
    requires Counted(s)
    ensures Counted(ServiceLoop(s, r).0)
    decreases Left(r)
  {
    if !s.failed && !AtEnd(r) && !IsEnd(Next(r), "service") {
      var n := Next(r);
      TagCounted(s, n);
      var (s', r') := ServiceTag(s, n);
      hide Counted, ServiceTag;
      LoopCounted(s', r');
    }
  }

  /** An accepted service, read into an empty description, has a name, exactly one location by exactly one
      of the two tags for it, the type that this tag means, and interfaces that all carry these. */
  lemma AcceptedService(m: MetaData, r: Reader)
    requires m.serviceName == "" && m.serviceLocation == "" && m.interfaces == [] && m.serviceType == Plugin
               && m.latestError == NO_ERROR
    requires ServiceElement(m, r).ok
    ensures var o := ServiceElement(m, r);
      var s := ServiceLoop(Service(m, 0, 0, 0, 0, false), r).0;
      && s.filePaths + s.ipcAddresses == 1
      && (o.m.serviceType == InterProcess <==> s.ipcAddresses == 1)
      && s.names == 1 && s.descriptions <= 1
      && o.m.serviceName != "" && o.m.serviceLocation != "" && !StartsWith(o.m.serviceLocation, IPC_PREFIX)
      && o.m.interfaces != [] && Carried(o.m)
  {
    var s0 := Service(m, 0, 0, 0, 0, false);
    assert Counted(s0);
    LoopCounted(s0, r);
    ServiceCarried(m, r);
    var s := ServiceLoop(s0, r).0;
    hide ServiceLoop, Carried, StartsWith;
    AcceptedChecks(s);
  }

  lemma AcceptedChecks(s: Service)
    requires Counted(s) && !ServiceChecked(s).failed
    ensures s.filePaths + s.ipcAddresses == 1 && s.names == 1 && s.descriptions <= 1
    ensures var m := ServiceChecked(s).m;
      && (m.serviceType == InterProcess <==> s.ipcAddresses == 1)
      && m.serviceName == s.m.serviceName != "" && m.serviceLocation == s.m.serviceLocation != ""
        && !StartsWith(m.serviceLocation, IPC_PREFIX)
      && m.interfaces != []
  {
    hide StartsWith;
  }

  // ---------------------------------------------------------------------------------------------
  // What the parser lets through
  // ---------------------------------------------------------------------------------------------

  /** Where a text breaks off, a child element standing in it or the document stopping, the reading of a
      service ends without an error: what was read of the text counts. See `ServiceXmlEnds.DocumentEnds`. */
  lemma BrokenTextAccepted(s: Service, r: Reader)
    requires !s.failed && !AtEnd(r) && !IsEnd(Next(r), "service") && AtEnd(ServiceTag(s, Next(r)).1)
    ensures ServiceLoop(s, r) == ServiceTag(s, Next(r))
  {
    hide ServiceTag;
  }

  /** A document may have no service at all, see `ServiceXmlEnds.DocumentServices`. */
  lemma EmptyDocumentAccepted()
    ensures Document([StartElement("SFW", map["version" := "1.1"]), EndElement("SFW"), EndDocument]) ==
            (CLEARED.(xmlVersion := "1.1"), true)
  {
    VersionRoundTrip(1, 1, true);
    assert Decimal(1) + "." + Decimal(1) == "1.1";
    hide Parse;
    var start := StartElement("SFW", map["version" := "1.1"]);
    var tokens := [start, EndElement("SFW"), EndDocument];
    var m := CLEARED.(xmlVersion := "1.1");
    assert tokens[1..] == [EndElement("SFW"), EndDocument];
    assert tokens[1..][1..] == [EndDocument];
    var r := Reader(start, tokens[1..]);
    assert VersionElement(CLEARED, r) == VersionLoop(Outcome(m, r, true));
    assert VersionLoop(Outcome(m, r, true)) == Outcome(m, Reader(EndElement("SFW"), [EndDocument]), true);
    assert DocumentLoop(Outcome(m, Reader(EndElement("SFW"), [EndDocument]), true)).m == m;
  }

  // ---------------------------------------------------------------------------------------------
  // Identifiers
  // ---------------------------------------------------------------------------------------------

  lemma {:induction false} DecimalLower(n: nat)
    ensures Lower(Decimal(n)) == Decimal(n) && '.' !in Decimal(n)
  {
    DecimalDigits(n);
    var s := Decimal(n);
    forall i | 0 <= i < |s|
      ensures LowerChar(s[i]) == s[i] && s[i] != '.'
    {
      assert IsDigit(s[i]);
    }
    assert Lower(s) == s;
  }

  lemma LastDot(a: string, x: string, k: nat)
    requires '.' !in x && |a| < k < |a + "." + x|
    ensures (a + "." + x)[k] != '.'
  {
    assert (a + "." + x)[k] == x[k - |a| - 1];
  }

  lemma AroundDot(a: string, x: string, b: string, y: string)
    requires '.' !in x && '.' !in y && a + "." + x == b + "." + y
    ensures a == b && x == y
  {
    var s := a + "." + x;
    assert s[|a|] == '.' && s[|b|] == '.';
    assert |a| == |b| by {
      forall k | |a| < k < |s|
        ensures s[k] != '.'
      {
        LastDot(a, x, k);
      }
      forall k | |b| < k < |s|
        ensures s[k] != '.'
      {
        LastDot(b, y, k);
      }
    }
    assert a == s[..|a|] && b == s[..|b|];
    assert x == s[|a| + 1..] && y == s[|b| + 1..];
  }

  lemma IdentParts(d: Descriptor)
    requires d.major >= 0 && d.minor >= 0
    ensures Ident(d) == (Lower(d.interfaceName) + Decimal(d.major)) + "." + Decimal(d.minor)
  {
    var x, y := Decimal(d.major), Decimal(d.minor);
    DecimalLower(d.major);
    DecimalLower(d.minor);
    hide Decimal;
    LowerDotted(d.interfaceName, x, y);
  }

  lemma LowerDotted(name: string, x: string, y: string)
    requires Lower(x) == x && Lower(y) == y
    ensures Lower(name + x + "." + y) == Lower(name) + x + "." + y
  {
    hide Lower;
    LowerConcat(name, x);
    LowerConcat(name + x, ".");
    LowerConcat(name + x + ".", y);
    assert Lower(".") == ".";
  }

  /** When two interfaces count as duplicates: their minor versions agree, and so do their names with the
      major version written directly behind. */
  lemma SameIdent(d: Descriptor, e: Descriptor)
    requires ParsedInterface(d) && ParsedInterface(e)
    ensures Ident(d) == Ident(e) <==>
            d.minor == e.minor && Lower(d.interfaceName) + Decimal(d.major) == Lower(e.interfaceName) + Decimal(e.major)
  {
    hide ParsedInterface, Ident;
    assert d.major >= 0 && d.minor >= 0 && e.major >= 0 && e.minor >= 0 by {
      Versions(d);
      Versions(e);
    }
    IdentParts(d);
    IdentParts(e);
    DecimalLower(d.minor);
    DecimalLower(e.minor);
    DecimalDigits(d.minor);
    DecimalDigits(e.minor);
    if Ident(d) == Ident(e) {
      AroundDot(Lower(d.interfaceName) + Decimal(d.major), Decimal(d.minor), Lower(e.interfaceName) + Decimal(e.major),
        Decimal(e.minor));
    }
    hide Decimal;
  }

  lemma Versions(d: Descriptor)
    requires ParsedInterface(d)
    ensures d.major >= 0 && d.minor >= 0
  {
  }

  /** So two interfaces that differ in name and version can be taken for duplicates. */
  lemma KeysCollide(d: Descriptor, e: Descriptor)
    requires d.interfaceName == "foo1" && d.major == 1 && d.minor == 0
    requires e.interfaceName == "foo" && e.major == 11 && e.minor == 0
    ensures !SameKey(d, e) && Ident(d) == Ident(e)
  {
    assert Decimal(1) == "1" && Decimal(0) == "0";
    assert Decimal(11) == "11";
    assert "foo1" + "1" == "foo" + "11";
  }

  // ---------------------------------------------------------------------------------------------
  // Locations
  // ---------------------------------------------------------------------------------------------

  /** No location begins like that of a service in another process is stored. */
  predicate Placed(m: MetaData) {
    !StartsWith(m.serviceLocation, IPC_PREFIX)
  }

  lemma InterfaceKeepsLocation(m: MetaData, r: Reader)
    ensures InterfaceElement(m, r).m.serviceLocation == m.serviceLocation
  {
    hide InterfaceLoop, InterfaceChecked, Ident, IsLatest;
  }

  lemma {:induction false} ServiceLoopPlaced(s: Service, r: Reader)
    requires s.failed || Placed(s.m)
    ensures var s' := ServiceLoop(s, r).0; s'.failed || Placed(s'.m)
    decreases Left(r)
  {
    if !s.failed && !AtEnd(r) && !IsEnd(Next(r), "service") {
      var n := Next(r);
      TagPlaced(s, n);
      var (s', r') := ServiceTag(s, n);
      hide Placed, ServiceTag;
      ServiceLoopPlaced(s', r');
    }
  }

  lemma {:induction false} TagPlaced(s: Service, r: Reader)
    requires Placed(s.m)
    ensures var s' := ServiceTag(s, r).0; s'.failed || Placed(s'.m)
  {
    if IsStart(r, "interface") {
      InterfaceKeepsLocation(s.m, r);
    }
    hide InterfaceElement, ElementText, GreaterThan, StartsWith;
  }

  lemma {:induction false} ServicePlaced(m: MetaData, r: Reader)
    requires Placed(m)
    ensures var o := ServiceElement(m, r); o.ok ==> Placed(o.m)
  {
    var s0 := Service(m, 0, 0, 0, 0, false);
    ServiceLoopPlaced(s0, r);
    hide ServiceLoop, StartsWith, AllOfService;
  }

  lemma {:induction false} VersionLoopPlaced(o: Outcome)
    requires o.ok ==> Placed(o.m)
    ensures VersionLoop(o).ok ==> Placed(VersionLoop(o).m)
    decreases Left(o.reader)
  {
    if o.ok && !AtEnd(o.reader) {
      var n := Next(o.reader);
      if IsStart(n, "service") {
        ServicePlaced(o.m, n);
        hide Placed, ServiceElement;
        VersionLoopPlaced(ServiceElement(o.m, n));
      } else if !IsEnd(n, "SFW") && !n.token.StartElement? && !n.token.Invalid? {
        hide Placed;
        VersionLoopPlaced(o.(reader := n));
      }
    }
  }

  lemma {:induction false} DocumentLoopPlaced(o: Outcome)
    requires o.ok ==> Placed(o.m)
    ensures DocumentLoop(o).ok ==> Placed(DocumentLoop(o).m)
    decreases Left(o.reader)
  {
    if o.ok && !AtEnd(o.reader) {
      var n := Next(o.reader);
      if IsStart(n, "SFW") {
        VersionPlaced(o.m, n);
        hide Placed, VersionElement;
        DocumentLoopPlaced(VersionElement(o.m, n));
      } else if IsStart(n, "service") {
        ServicePlaced(o.m, n);
        hide Placed, ServiceElement;
        DocumentLoopPlaced(ServiceElement(o.m, n));
      } else if !n.token.StartElement? && !n.token.Invalid? {
        hide Placed;
        DocumentLoopPlaced(o.(reader := n));
      }
    }
  }

  lemma {:induction false} VersionPlaced(m: MetaData, r: Reader)
    requires r.token.StartElement? && Placed(m)
    ensures VersionElement(m, r).ok ==> Placed(VersionElement(m, r).m)
  {
    hide VersionLoop, CheckVersion, GreaterThan, StartsWith;
    if "version" in r.token.attributes {
      VersionLoopPlaced(Outcome(m.(xmlVersion := r.token.attributes["version"]), r, true));
    }
  }

  /** The location of an accepted service. */
  lemma {:induction false} DocumentPlaced(tokens: seq<Token>)
    ensures Document(tokens).1 ==> Placed(Document(tokens).0)
  {
    DocumentLoopPlaced(Outcome(CLEARED, Reader(Other, tokens), true));
    hide DocumentLoop;
  }
}
