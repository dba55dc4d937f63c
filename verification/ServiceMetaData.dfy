/** The service metadata parser of src/serviceframework/servicemetadata.cpp: token loops that fill in fields. */
module ServiceMetaData {
  import opened Text
  import opened Version
  import opened Descriptor
  import opened XmlReader
  import opened ServiceXml
  import opened ServiceXmlFacts

  class ServiceMetaData {
    var xmlVersion: string
    var serviceName: string
    var serviceLocation: string
    var serviceDescription: string
    var serviceType: ServiceType
    var serviceInterfaces: seq<Descriptor>
    var duplicates: set<string>
    var latestIndex: map<string, nat>
    var latestError: Error

    function View(): MetaData
      reads this
    {
      MetaData(xmlVersion, serviceName, serviceLocation, serviceDescription, serviceType, serviceInterfaces,
        duplicates, latestIndex, latestError)
    }

    constructor ()
      ensures View() == CLEARED.(xmlVersion := "")
    {
      xmlVersion, serviceName, serviceLocation, serviceDescription := "", "", "", "";
      serviceType := Plugin;
      serviceInterfaces, duplicates, latestIndex := [], {}, map[];
      latestError := NO_ERROR;
    }

    /** clearMetadata: everything but the last error. */
    method ClearMetadata()
      modifies this
      ensures View() == CLEARED.(latestError := old(latestError))
    {
      xmlVersion := "1.0";
      serviceName, serviceLocation, serviceDescription := "", "", "";
      serviceInterfaces, duplicates, latestIndex := [], {}, map[];
      serviceType := Plugin;
    }

    /** extractMetadata. `opens` is whether the device can be opened. */
    method ExtractMetadata(reader: QXmlStreamReader, opens: bool) returns (ok: bool)
      modifies this, reader
      requires reader.token == Other
      ensures opens ==> (View(), ok) == Document(old(reader.rest))
      ensures !opens ==> !ok && View() == CLEARED.(latestError := UnableToOpenFile)
      ensures Sound(View()) && Carried(View())
    {
      latestError := NO_ERROR;
      ClearMetadata();
      var parseError := false;
      if !opens {
        latestError := UnableToOpenFile;
        parseError := true;
      } else {
        parseError := ReadDocument(reader);
      }
      if parseError {
        ClearMetadata();
      }
      DocumentSound(old(reader.rest));
      hide Document, DocumentLoop;
      ok := !parseError;
    }

    method ReadDocument(reader: QXmlStreamReader) returns (parseError: bool)
      requires View() == CLEARED && reader.token == Other
      modifies this, reader
      ensures var o := DocumentLoop(Outcome(CLEARED, old(reader.View()), true)); View() == o.m && parseError == !o.ok
    {
      hide VersionElement, ServiceElement;
      ghost var start := Outcome(CLEARED, reader.View(), true);
      parseError := false;
      while !AtEnd(reader.View()) && !parseError
        invariant DocumentLoop(Outcome(View(), reader.View(), !parseError)) == DocumentLoop(start)
        decreases !parseError, Left(reader.View())
      {
        reader.ReadNext();
        if IsStart(reader.View(), "SFW") {
          var ok := ProcessVersionElement(reader);
          parseError := !ok;
        } else if IsStart(reader.View(), "service") {
          var ok := ProcessServiceElement(reader);
          parseError := !ok;
        } else if reader.token.StartElement? {
          latestError := NoService;
          parseError := true;
        } else if reader.token.Invalid? {
          latestError := InvalidXmlFile;
          parseError := true;
        }
      }
    }

    method ProcessVersionElement(reader: QXmlStreamReader) returns (ok: bool)
      requires IsStart(reader.View(), "SFW")
      modifies this, reader
      ensures Outcome(View(), reader.View(), ok) == VersionElement(old(View()), old(reader.View()))
    {
      hide ServiceElement, CheckVersion, GreaterThan;
      var parseError := false;
      if "version" in reader.token.attributes {
        xmlVersion := reader.token.attributes["version"];
        var success := CheckVersion(xmlVersion);
        if xmlVersion == "" || !success {
          latestError := InvalidXmlVersion;
          parseError := true;
        } else if GreaterThan(xmlVersion, XML_MAX) {
          latestError := UnsupportedXmlVersion;
          parseError := true;
        }
      } else {
        latestError := InvalidXmlVersion;
        parseError := true;
      }
      ghost var start := Outcome(View(), reader.View(), !parseError);
      assert VersionElement(old(View()), old(reader.View())) == VersionLoop(start);
      while !parseError && !AtEnd(reader.View())
        invariant VersionLoop(Outcome(View(), reader.View(), !parseError)) == VersionLoop(start)
        decreases !parseError, Left(reader.View())
      {
        reader.ReadNext();
        if IsStart(reader.View(), "service") {
          var processed := ProcessServiceElement(reader);
          parseError := !processed;
        } else if IsEnd(reader.View(), "SFW") {
          break;
        } else if reader.token.StartElement? {
          latestError := NoService;
          parseError := true;
        } else if reader.token.Invalid? {
          latestError := InvalidXmlFile;
          parseError := true;
        }
      }
      ok := !parseError;
    }

    method ProcessServiceElement(reader: QXmlStreamReader) returns (ok: bool)
      requires IsStart(reader.View(), "service")
      modifies this, reader
      ensures Outcome(View(), reader.View(), ok) == ServiceElement(old(View()), old(reader.View()))
    {
      hide ServiceTag, ServiceChecked;
      var names, descriptions, filePaths, ipcAddresses, parseError := 0, 0, 0, 0, false;
      ghost var start := Service(View(), 0, 0, 0, 0, false);
      while !parseError && !AtEnd(reader.View())
        invariant names >= 0 && descriptions >= 0 && filePaths >= 0 && ipcAddresses >= 0
        invariant ServiceLoop(Service(View(), names, descriptions, filePaths, ipcAddresses, parseError),
                    reader.View()) == ServiceLoop(start, old(reader.View()))
        decreases !parseError, Left(reader.View())
      {
        reader.ReadNext();
        if IsEnd(reader.View(), "service") {
          break;
        }
        names, descriptions, filePaths, ipcAddresses, parseError :=
          ProcessServiceTag(reader, names, descriptions, filePaths, ipcAddresses);
      }
      ghost var s := Service(View(), names, descriptions, filePaths, ipcAddresses, parseError);
      assert ServiceLoop(start, old(reader.View())) == (s, reader.View());
      hide ServiceLoop;
      parseError := CheckService(names, descriptions, filePaths, ipcAddresses, parseError);
      UpdateInterfaces();
      ok := !parseError;
    }

    /** One token within a service: the new counts of its tags, and whether it is an error. */
    method ProcessServiceTag(reader: QXmlStreamReader, names: nat, descriptions: nat, filePaths: nat, ipcAddresses: nat)
      returns (names': nat, descriptions': nat, filePaths': nat, ipcAddresses': nat, parseError: bool)
      modifies this, reader
      ensures (Service(View(), names', descriptions', filePaths', ipcAddresses', parseError), reader.View()) ==
              ServiceTag(Service(old(View()), names, descriptions, filePaths, ipcAddresses, false), old(reader.View()))
    {
      hide InterfaceElement, ElementText, GreaterThan, StartsWith;
      names', descriptions', filePaths', ipcAddresses', parseError := names, descriptions, filePaths, ipcAddresses,
        false;
      if IsStart(reader.View(), "name") {
        serviceName := reader.ReadElementText();
        names' := names + 1;
      } else if IsStart(reader.View(), "description") {
        serviceDescription := reader.ReadElementText();
        descriptions' := descriptions + 1;
      } else if IsStart(reader.View(), "filepath") {
        filePaths' := filePaths + 1;
        serviceLocation := reader.ReadElementText();
        if StartsWith(serviceLocation, IPC_PREFIX) {
          latestError := InvalidFilePath;
          parseError := true;
        }
      } else if IsStart(reader.View(), "ipcaddress") {
        if GreaterThan(xmlVersion, "1.0") {
          ipcAddresses' := ipcAddresses + 1;
          serviceLocation := reader.ReadElementText();
          if StartsWith(serviceLocation, IPC_PREFIX) {
            latestError := InvalidFilePath;
            parseError := true;
          }
        } else {
          latestError := UnsupportedIpc;
          parseError := true;
        }
      } else if IsStart(reader.View(), "interface") {
        var processed := ProcessInterfaceElement(reader);
        parseError := !processed;
      } else if IsStart(reader.View(), "version") {
        var ignored := reader.ReadElementText();
      } else if reader.token.EndElement? || reader.token.StartElement? {
        latestError := ParseService;
        parseError := true;
      } else if reader.token.Invalid? {
        latestError := InvalidXmlFile;
        parseError := true;
      }
    }

    /** The checks at the end of a service. */
    method CheckService(names: nat, descriptions: nat, filePaths: nat, ipcAddresses: nat, failed: bool)
        returns (parseError: bool)
      modifies `serviceType, `latestError
      ensures var s := ServiceChecked(Service(old(View()), names, descriptions, filePaths, ipcAddresses, failed));
        View() == s.m && parseError == s.failed
    {
      parseError := failed;
      if !parseError {
        if serviceName == "" {
          latestError := NoServiceName;
          parseError := true;
        } else if serviceLocation == "" {
          latestError := NoServicePath;
          parseError := true;
        }
      }
      if ipcAddresses > 0 {
        serviceType := InterProcess;
      }
      if filePaths > 0 && ipcAddresses > 0 {
        latestError := MultipleServiceTypes;
        parseError := true;
      }
      if !parseError && (names > 1 || descriptions > 1 || filePaths > 1 || ipcAddresses > 1) {
        latestError := DuplicatedTag;
        parseError := true;
      }
      if |serviceInterfaces| == 0 && latestError == NO_ERROR {
        latestError := NoServiceInterface;
        parseError := true;
      }
    }

    /** All interfaces read so far are given the data of the service read last. */
    method UpdateInterfaces()
      modifies `serviceInterfaces
      ensures serviceInterfaces == AllOfService(old(View()), old(serviceInterfaces))
    {
      ghost var m, ds := View(), serviceInterfaces;
      var i := 0;
      while i < |serviceInterfaces|
        invariant 0 <= i <= |serviceInterfaces| == |ds|
        invariant forall j | 0 <= j < i :: serviceInterfaces[j] == OfService(m, ds[j])
        invariant forall j | i <= j < |ds| :: serviceInterfaces[j] == ds[j]
      {
        serviceInterfaces := serviceInterfaces[i := OfService(View(), serviceInterfaces[i])];
        i := i + 1;
      }
      assert serviceInterfaces == AllOfService(m, ds);
    }

    method ProcessInterfaceElement(reader: QXmlStreamReader) returns (ok: bool)
      requires IsStart(reader.View(), "interface")
      modifies this, reader
      ensures Outcome(View(), reader.View(), ok) == InterfaceElement(old(View()), old(reader.View()))
    {
      hide InterfaceTag, InterfaceChecked, Added, Ident;
      var s := NEW_IFACE;
      while s.error.None? && !AtEnd(reader.View())
        invariant InterfaceLoop(s, reader.View()) == InterfaceLoop(NEW_IFACE, old(reader.View()))
        invariant View() == old(View())
        decreases s.error.None?, Left(reader.View())
      {
        reader.ReadNext();
        if IsEnd(reader.View(), "interface") {
          break;
        }
        s := ProcessInterfaceTag(reader, s);
      }
      assert InterfaceLoop(NEW_IFACE, old(reader.View())) == (s, reader.View());
      hide InterfaceLoop;
      s := InterfaceChecked(s);
      if s.error.Some? {
        latestError := s.error.value;
        return false;
      }
      if Ident(s.d) in duplicates {
        latestError := DuplicatedInterface;
        return false;
      }
      AddInterface(s.d);
      ok := true;
    }

    /** One token within an interface. */
    method ProcessInterfaceTag(reader: QXmlStreamReader, s: Iface) returns (s': Iface)
      modifies reader
      ensures (s', reader.View()) == InterfaceTag(s, old(reader.View()))
    {
      hide ElementText, Versioned, Capable;
      s' := s;
      if IsStart(reader.View(), "name") {
        var text := reader.ReadElementText();
        s' := Named(s, text);
      } else if IsStart(reader.View(), "description") {
        var text := reader.ReadElementText();
        s' := Described(s, text);
      } else if IsStart(reader.View(), "version") {
        var text := reader.ReadElementText();
        s' := Versioned(s, text);
      } else if IsStart(reader.View(), "capabilities") {
        var text := reader.ReadElementText();
        s' := Capable(s, text);
      } else if IsStart(reader.View(), "customproperty") {
        if "key" !in reader.token.attributes || reader.token.attributes["key"] == "" {
          s' := s.(error := Some(InvalidCustomTag));
        } else {
          var key := reader.token.attributes["key"];
          if key in s.d.customAttributes {
            s' := s.(error := Some(DuplicatedCustomKey));
          } else {
            var text := reader.ReadElementText();
            s' := Customized(s, key, text);
          }
        }
      } else if reader.token.StartElement? || reader.token.EndElement? {
        s' := s.(error := Some(ParseInterface));
      } else if reader.token.Invalid? {
        s' := s.(error := Some(InvalidXmlFile));
      }
    }

    /** An interface that is new: it is listed, and indexed if it is the latest of its name. */
    method AddInterface(d: Descriptor)
      modifies `duplicates, `serviceInterfaces, `latestIndex
      ensures View() == Added(old(View()), d)
    {
      hide Ident;
      ghost var before := View();
      duplicates := duplicates + {Ident(d)};
      serviceInterfaces := serviceInterfaces + [d];
      var name := Lower(d.interfaceName);
      if name !in latestIndex {
        latestIndex := latestIndex[name := |serviceInterfaces| - 1];
      } else if latestIndex[name] < |serviceInterfaces| - 1 && LowerVersion(serviceInterfaces[latestIndex[name]], d) {
        latestIndex := latestIndex[name := |serviceInterfaces| - 1];
      }
    }

    /** latestInterfaces: one interface of each name, none of them below another of its name. */
    method LatestInterfaces() returns (latest: seq<Descriptor>)
      requires Sound(View())
      ensures forall i | 0 <= i < |latest| :: latest[i] in serviceInterfaces
      ensures forall i, j | 0 <= i < j < |latest| :: !SameName(latest[i].interfaceName, latest[j].interfaceName)
      ensures forall k | 0 <= k < |serviceInterfaces| :: HasLatest(latest, serviceInterfaces[k])
    {
      latest := [];
      ghost var names: seq<string> := [];
      var left := latestIndex.Keys;
      hide Lower, ParsedInterface, Ident, SoundTables, Distinct, DuplicatesOk;
      IndexInRange(View());
      while left != {}
        invariant left <= latestIndex.Keys && |names| == |latest|
        invariant forall i | 0 <= i < |names| ::
                    names[i] in latestIndex && names[i] !in left
                    && latest[i] == serviceInterfaces[latestIndex[names[i]]]
        invariant forall i, j | 0 <= i < j < |names| :: names[i] != names[j]
        invariant forall n | n in latestIndex && n !in left :: n in names
        decreases left
      {
        var name :| name in left;
        left := left - {name};
        latest := latest + [serviceInterfaces[latestIndex[name]]];
        names := names + [name];
      }
      LatestOfEach(View(), names, latest);
      hide HasLatest;
    }
  }

  lemma IndexInRange(m: MetaData)
    requires Sound(m)
    ensures LatestOk(m.interfaces, m.latestIndex) && forall n | n in m.latestIndex :: m.latestIndex[n] < |m.interfaces|
  {
    hide Lower, Ident, ParsedInterface, Distinct, DuplicatesOk;
  }

  /** An interface of this one's name, and not below it, is listed. */
  ghost predicate HasLatest(latest: seq<Descriptor>, d: Descriptor) {
    exists i :: 0 <= i < |latest| && SameName(latest[i].interfaceName, d.interfaceName)
      && (latest[i].major > d.major || (latest[i].major == d.major && latest[i].minor >= d.minor))
  }

  /** Taking what the index has for each name leaves out no name and takes the greatest version. */
  lemma LatestOfEach(m: MetaData, names: seq<string>, latest: seq<Descriptor>)
    requires LatestOk(m.interfaces, m.latestIndex) && |names| == |latest|
    requires forall i | 0 <= i < |names| ::
               names[i] in m.latestIndex && latest[i] == m.interfaces[m.latestIndex[names[i]]]
    requires forall i, j | 0 <= i < j < |names| :: names[i] != names[j]
    requires forall n | n in m.latestIndex :: n in names
    ensures forall i | 0 <= i < |latest| :: latest[i] in m.interfaces
    ensures forall i, j | 0 <= i < j < |latest| :: !SameName(latest[i].interfaceName, latest[j].interfaceName)
    ensures forall k | 0 <= k < |m.interfaces| :: HasLatest(latest, m.interfaces[k])
  {
    hide Lower;
    forall i | 0 <= i < |names|
      ensures Lower(latest[i].interfaceName) == names[i] && latest[i] in m.interfaces
    {
      assert names[i] in m.latestIndex;
    }
    forall k | 0 <= k < |m.interfaces|
      ensures HasLatest(latest, m.interfaces[k])
    {
      var name := Lower(m.interfaces[k].interfaceName);
      assert name in m.latestIndex && name in names;
      var i :| 0 <= i < |names| && names[i] == name;
      assert latest[i] == m.interfaces[m.latestIndex[name]];
      assert SameName(latest[i].interfaceName, m.interfaces[k].interfaceName)
        && !LowerVersion(latest[i], m.interfaces[k]);
    }
  }
}
