/**
 * The service registry of the `services` package, taken as a value: which
 * services have a default port, the order in which `SupportedServices` lists
 * them, and how `Service.String` renders each one. The real port numbers and
 * enum names are data of that package and are not fixed here.
 */
module Services {
  import opened Wrappers
  import Nat

  /** `services.Service`: an enumerated identifier, kept abstract as its ordinal. */
  datatype Service = Service(ordinal: nat)

  /** `services.ServiceConfig`: a service and an optional external port (values below 1 mean "use the default"). */
  datatype ServiceConfig = ServiceConfig(service: Service, port: int)

  datatype LookupError = UnsupportedService(service: Service)

  datatype Registry = Registry(
    defaults: map<Service, int>,     // GetDefaultPort, a partial function
    supported: seq<Service>,         // SupportedServices, in enumeration order
    name: Service -> string          // Service.String
  ) {

    /** Every default port is a positive port number. */
    predicate Valid() {
      forall s :: s in defaults ==> 1 <= defaults[s] <= Nat.MaxPort
    }

    /** No two services share a default port. */
    predicate DistinctDefaults() {
      forall s, t :: s in defaults && t in defaults && s != t ==> defaults[s] != defaults[t]
    }
  }

  /** `services.GetDefaultPort`: fails for a service outside the registry. */
  function GetDefaultPort(reg: Registry, s: Service): Result<int, LookupError> {
    if s in reg.defaults then Ok(reg.defaults[s]) else Err(UnsupportedService(s))
  }

}
