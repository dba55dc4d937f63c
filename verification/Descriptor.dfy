/** Interface descriptors: src/serviceframework/qserviceinterfacedescriptor_p.h. */
module Descriptor {
  import opened Text
  import opened Version

  datatype ServiceType = Plugin | InterProcess

  datatype Scope = UserScope | SystemScope

  /** The attributes that are set; an attribute that is not set is None. */
  datatype Attributes = Attributes(
    capabilities: Option<seq<string>>,
    interfaceDescription: Option<string>,
    location: Option<string>,
    serviceDescription: Option<string>,
    serviceType: Option<ServiceType>)

  const NO_ATTRIBUTES := Attributes(None, None, None, None, None)

  datatype Descriptor = Descriptor(
    interfaceName: string,
    serviceName: string,
    major: int,
    minor: int,
    attributes: Attributes,
    customAttributes: map<string, string>,
    scope: Scope)

  /** The prefix that marks the location of a service in another process. */
  const IPC_PREFIX: string := "_q_ipc_addr:"

  /** The capability lists that a comma-separated text can hold. */
  predicate ListOfParts(list: seq<string>) {
    forall p | p in list :: p != "" && ',' !in p
  }

  predicate LowerVersion(d: Descriptor, e: Descriptor) {
    d.major < e.major || (d.major == e.major && d.minor < e.minor)
  }
}
