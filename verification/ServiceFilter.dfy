/** Service filters: src/serviceframework/qservicefilter.cpp, and what its documentation says a filter
  matches. */
module ServiceFilter {
  import opened Text
  import opened Version
  import opened Descriptor

  datatype VersionMatchRule = ExactVersionMatch | MinimumVersionMatch

  datatype CapabilityMatchRule = MatchMinimum | MatchLoadable

  /** The value of a filter. A version of -1 matches any version. */
  datatype Filter = Filter(
    interfaceName: string,
    serviceName: string,
    majorVersion: int,
    minorVersion: int,
    matchingRule: VersionMatchRule,
    customAttributes: map<string, string>,
    capabilities: seq<string>,
    capMatchingRule: CapabilityMatchRule)

  // ---------------------------------------------------------------------------------------------
  // The documented meaning
  // ---------------------------------------------------------------------------------------------

  /** A filter that matches everything. */
  const NEW_FILTER := Filter("", "", -1, -1, MinimumVersionMatch, map[], [], MatchMinimum)

  predicate VersionMatches(f: Filter, d: Descriptor) {
    f.majorVersion < 0 || f.minorVersion < 0
    || match f.matchingRule
       case ExactVersionMatch => d.major == f.majorVersion && d.minor == f.minorVersion
       case MinimumVersionMatch => d.major > f.majorVersion || (d.major == f.majorVersion && d.minor >= f.minorVersion)
  }

  predicate NamesMatch(f: Filter, d: Descriptor) {
    && (f.serviceName != "" ==> SameName(d.serviceName, f.serviceName))
    && (f.interfaceName != "" ==> SameName(d.interfaceName, f.interfaceName) && VersionMatches(f, d))
  }

  function AsSet(list: seq<string>): set<string> {
    set p | p in list
  }

  function CapabilitiesOf(d: Descriptor): set<string> {
    match d.attributes.capabilities
    case None => {}
    case Some(list) => AsSet(list)
  }

  predicate CapabilitiesMatch(f: Filter, d: Descriptor) {
    match f.capMatchingRule
    case MatchMinimum => AsSet(f.capabilities) - CapabilitiesOf(d) == {}
    case MatchLoadable => CapabilitiesOf(d) - AsSet(f.capabilities) == {}
  }

  predicate CustomMatches(f: Filter, d: Descriptor) {
    forall key | key in f.customAttributes ::
      key in d.customAttributes && d.customAttributes[key] == f.customAttributes[key]
  }

  predicate Matches(f: Filter, d: Descriptor) {
    NamesMatch(f, d) && CapabilitiesMatch(f, d) && CustomMatches(f, d)
  }

  /** What a filter matches, as the documentation has it: by name, by version, by the capabilities on both sides,
      where an interface without a list has none, and by the custom attributes asked for. */
  lemma FilterMeans(f: Filter, d: Descriptor)
    ensures Matches(f, d) <==>
            && (f.serviceName == "" || SameName(d.serviceName, f.serviceName))
            && (f.interfaceName == "" || SameName(d.interfaceName, f.interfaceName))
            && (f.interfaceName == "" || f.majorVersion < 0 || f.minorVersion < 0
                || if f.matchingRule == ExactVersionMatch
                   then d.major == f.majorVersion && d.minor == f.minorVersion
                   else !(d.major < f.majorVersion || (d.major == f.majorVersion && d.minor < f.minorVersion)))
            && (f.capMatchingRule == MatchMinimum ==>
                  forall c | c in f.capabilities ::
                    d.attributes.capabilities.Some? && c in d.attributes.capabilities.value)
            && (f.capMatchingRule == MatchLoadable && d.attributes.capabilities.Some? ==>
                  forall c | c in d.attributes.capabilities.value :: c in f.capabilities)
            && (forall key | key in f.customAttributes ::
                  key in d.customAttributes && d.customAttributes[key] == f.customAttributes[key])
  {
    hide SameName;
    CapabilitiesMean(f, d);
    hide CapabilitiesMatch;
  }

  lemma CapabilitiesMean(f: Filter, d: Descriptor)
    ensures CapabilitiesMatch(f, d) <==>
            && (f.capMatchingRule == MatchMinimum ==>
                  forall c | c in f.capabilities ::
                    d.attributes.capabilities.Some? && c in d.attributes.capabilities.value)
            && (f.capMatchingRule == MatchLoadable && d.attributes.capabilities.Some? ==>
                  forall c | c in d.attributes.capabilities.value :: c in f.capabilities)
  {
    NothingMissing(AsSet(f.capabilities), CapabilitiesOf(d));
    NothingMissing(CapabilitiesOf(d), AsSet(f.capabilities));
    assert forall c :: c in AsSet(f.capabilities) <==> c in f.capabilities;
    assert forall c :: c in CapabilitiesOf(d) <==>
      d.attributes.capabilities.Some? && c in d.attributes.capabilities.value;
  }

  lemma NothingMissing(a: set<string>, b: set<string>)
    ensures a - b == {} <==> forall c | c in a :: c in b
  {
    forall c | c in a && c !in b
      ensures c in a - b
    {
    }
  }

  /** A filter that asks for more capabilities matches fewer interfaces under MatchMinimum and more under
      MatchLoadable; asking for none is a wildcard under the first rule, and under the second leaves the
      interfaces that need none. */
  lemma MoreCapabilities(f: Filter, more: seq<string>, d: Descriptor)
    ensures var g := f.(capabilities := f.capabilities + more);
      if f.capMatchingRule == MatchMinimum then Matches(g, d) ==> Matches(f, d) else Matches(f, d) ==> Matches(g, d)
    ensures f.capabilities == [] && f.capMatchingRule == MatchMinimum ==> CapabilitiesMatch(f, d)
    ensures f.capabilities == [] && f.capMatchingRule == MatchLoadable ==>
              (CapabilitiesMatch(f, d) <==> CapabilitiesOf(d) == {})
  {
    var g := f.(capabilities := f.capabilities + more);
    assert AsSet(g.capabilities) == AsSet(f.capabilities) + AsSet(more);
    assert NamesMatch(g, d) <==> NamesMatch(f, d);
    assert CustomMatches(g, d) <==> CustomMatches(f, d);
  }

  // ---------------------------------------------------------------------------------------------
  // The class
  // ---------------------------------------------------------------------------------------------

  class QServiceFilter {
    var interfaceName: string
    var serviceName: string
    var majorVersion: int
    var minorVersion: int
    var matchingRule: VersionMatchRule
    var customAttributes: map<string, string>
    var capabilities: seq<string>
    var capMatchingRule: CapabilityMatchRule

    function View(): Filter
      reads this
    {
      Filter(interfaceName, serviceName, majorVersion, minorVersion, matchingRule, customAttributes, capabilities,
        capMatchingRule)
    }

    /** A version is asked for in full or not at all, and only of a named interface. */
    ghost predicate Valid()
      reads this
    {
      || (majorVersion == minorVersion == -1)
      || (interfaceName != "" && 0 <= majorVersion <= INT_MAX && 0 <= minorVersion <= INT_MAX)
    }

    constructor ()
      ensures Valid()
      ensures View() == NEW_FILTER
    {
      interfaceName, serviceName := "", "";
      majorVersion, minorVersion := -1, -1;
      matchingRule := MinimumVersionMatch;
      customAttributes, capabilities := map[], [];
      capMatchingRule := MatchMinimum;
    }

    method SetServiceName(name: string)
      requires Valid()
      modifies `serviceName
      ensures Valid() && View() == old(View()).(serviceName := name)
    {
      serviceName := name;
    }

    /** setInterface: does nothing for a version without a name, or for one that is no version. */
    method SetInterface(name: string, version: string, rule: VersionMatchRule)
      requires Valid()
      modifies `interfaceName, `majorVersion, `minorVersion, `matchingRule
      ensures Valid()
      ensures (name == "" && version != "") || (version != "" && FilterVersion(version).None?) ==> View() == old(View())
      ensures version == "" ==>
                View() ==
                  old(View()).(interfaceName := name, majorVersion := -1, minorVersion := -1, matchingRule := rule)
      ensures name != "" && FilterVersion(version).Some? ==>
                var v := FilterVersion(version).value;
                View() ==
                  old(View()).(interfaceName := name, majorVersion := v.major, minorVersion := v.minor,
                  matchingRule := rule)
    {
      EmptyVersion();
      if name == "" && version == "" {
        interfaceName := name;
        majorVersion, minorVersion := -1, -1;
        matchingRule := rule;
        return;
      }
      if name == "" {
        return;
      }
      if version == "" {
        majorVersion, minorVersion := -1, -1;
        matchingRule := rule;
        interfaceName := name;
        return;
      }
      match FilterVersion(version)
      case Some(v) =>
        majorVersion, minorVersion := v.major, v.minor;
        interfaceName := name;
        matchingRule := rule;
      case None =>
    }

    method SetCustomAttribute(key: string, value: string)
      requires Valid()
      modifies `customAttributes
      ensures Valid() && View() == old(View()).(customAttributes := old(customAttributes)[key := value])
    {
      customAttributes := customAttributes[key := value];
    }

    method ClearCustomAttribute(key: string)
      requires Valid()
      modifies `customAttributes
      ensures Valid()
      ensures View() == old(View()).(customAttributes := if key == "" then map[] else old(customAttributes) - {key})
    {
      if key == "" {
        customAttributes := map[];
      } else {
        customAttributes := customAttributes - {key};
      }
    }

    method SetCapabilities(rule: CapabilityMatchRule, list: seq<string>)
      requires Valid()
      modifies `capMatchingRule, `capabilities
      ensures Valid() && View() == old(View()).(capMatchingRule := rule, capabilities := list)
    {
      capMatchingRule := rule;
      capabilities := list;
    }
  }

  lemma EmptyVersion()
    ensures FilterVersion("").None?
  {
  }

  lemma {:induction false} WrittenMatches(name: string, major: nat, minor: nat, rule: VersionMatchRule, d: Descriptor)
    requires name != ""
    ensures var f := NEW_FILTER.(interfaceName := name, majorVersion := major, minorVersion := minor,
              matchingRule := rule);
      Matches(f, d) <==>
      SameName(d.interfaceName, name)
      && if rule == ExactVersionMatch then d.major == major && d.minor == minor
         else !(d.major < major || (d.major == major && d.minor < minor))
    ensures Matches(NEW_FILTER, d)
  {
    assert AsSet([]) == {};
    hide SameName;
  }

  /** A filter for a version written out matches exactly the implementations of that version, or under the
      minimum rule those not below it. Numbers that are too large leave the filter as it was. */
  method FilterForVersion(name: string, major: nat, minor: nat, rule: VersionMatchRule) returns (f: QServiceFilter)
    requires name != ""
    ensures fresh(f) && f.Valid()
    ensures major <= INT_MAX && minor <= INT_MAX ==>
              forall d: Descriptor :: Matches(f.View(), d) <==>
                SameName(d.interfaceName, name)
                && if rule == ExactVersionMatch then d.major == major && d.minor == minor
                   else !(d.major < major || (d.major == major && d.minor < minor))
    ensures major > INT_MAX || minor > INT_MAX ==> forall d: Descriptor :: Matches(f.View(), d)
  {
    f := new QServiceFilter();
    VersionRoundTrip(major, minor, false);
    f.SetInterface(name, Decimal(major) + "." + Decimal(minor), rule);
    hide Parse, Matches;
    forall d: Descriptor {
      WrittenMatches(name, major, minor, rule, d);
    }
  }
}
