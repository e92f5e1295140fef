# LocalStack container configuration, modelled in Dafny

This project models how the Go wrapper `localstack-go-wrapper` configures its LocalStack
Docker container. The input is a possibly empty list of service selections. Each
selection is a service plus an optional external port. From that list the wrapper
computes two things:

- the container config: the image, plus one `SERVICES=` environment entry. That entry
  holds the lower-cased, comma-joined service names. It is present only when at least
  one selection is given.
- the host config: a table from each internal (container) port to its host bindings.
  With selections, every selection is published on its override port or on its default
  port. With none, every supported service of the registry is published on its default
  port.

Files:

- `wrappers.dfy`: `Result`, the stand-in for Go's `(value, error)` pairs.
- `nat.dfy`: Docker's `nat.Port`, `nat.PortBinding` and `nat.NewPort`.
- `services.dfy`: the service registry. It is a value: a partial map from service to
  default port, the `SupportedServices` sequence, and the `Service.String` function.
- `text.dfy`: `strings.ToLower`, `strings.Join`, and `Split`, the inverse of `Join`.
- `localstack_container.dfy`: `containerConfig` and `hostConfig` as methods with loops,
  the two `getMappingFor…` functions, a specification function for each method, and
  lemmas about those functions.

Modelling choices:

- The `services` package is not part of this model. Its port numbers and enum names are
  registry data, so every operation takes the registry as a parameter. `Registry.Valid`
  says that every default port lies in 1..65535. `Registry.DistinctDefaults` says that
  no two services share a default port. Lemmas that need either one say so in their
  `requires`.
- `nat.Port` is kept as a (protocol, number) pair, because Docker's `"<n>/<proto>"`
  string rendering is injective. `strconv.Itoa` is the identity on integers: host ports
  are kept as `int`.
- `nat.NewPort` is not part of this model beyond this one fact: it parses the number as
  a 16-bit unsigned value. So `NewPort` fails outside 0..65535, and it never fails under
  a valid registry.
- `hostConfig` fills a local Go map in two `for` loops and returns at the first error.
  `BuildHostConfig` does the same with a local `map` variable. It is proved equal to
  `HostConfigOf`, which folds the mappings with `Fill`.
- `containerConfig` appends names in a loop and then writes into a `strings.Builder`.
  `BuildContainerConfig` does the same with `seq` and `string` locals. It is proved
  equal to `ServicesEnv`.
- The model follows the code literally in two places. Lookup
  errors are returned unchanged, not wrapped with extra context. An override port is
  used whenever it is at least 1, and it is never range-checked: a selection with port
  70000 yields host port 70000 with no error.

## Model

| member | source | states |
|---|---|---|
| `Localstack.BuildContainerConfig` | localstack/localstack_container.go:111-127 | The config's image is always `img`, whatever the selections are. Its environment is `ServicesEnv` of the selections. |
| `Localstack.ServicesEnv` | localstack/localstack_container.go:115-124 | The environment list is empty exactly when there are no selections. Otherwise it has exactly one entry, and that entry starts with `SERVICES=`. |
| `Localstack.ServicesEnvRoundTrip` | localstack/localstack_container.go:116-123 | Assume no service name contains a comma. Then, for a non-empty list, the value after `SERVICES=` splits at commas into exactly one lower-cased name per selection. The names are in input order, and duplicates are kept. |
| `Localstack.MappingForService` | localstack/localstack_container.go:172-187 | It fails with `UnsupportedService` when the service has no default port. It succeeds exactly when the default exists and is a valid port. The internal port is the default's tcp port, and the single 0.0.0.0 binding's host port equals the internal port. |
| `Localstack.MappingForServiceConfig` | localstack/localstack_container.go:151-170 | It succeeds or fails exactly as `MappingForService` on the same service, with the same error and the same internal port. With a port below 1 the result is identical to `MappingForService`. With a port of 1 or more, the binding is `[0.0.0.0 : port]`. |
| `Localstack.BuildHostConfig` | localstack/localstack_container.go:129-149 | Its loops, including the early error returns, compute exactly `HostConfigOf`. That is a fold of the selection mappings, or of the registry mappings when no selection is given. |
| `Localstack.FillFailsIff` | localstack/localstack_container.go:130-147 | Filling fails if and only if some mapping failed. |
| `Localstack.FillFirstError` | localstack/localstack_container.go:132-136 | The error returned is the first failing mapping's, so the fill fails fast. |
| `Localstack.FillKeys` | localstack/localstack_container.go:130-147 | The key set of the filled table is the starting keys plus every mapping's internal port. |
| `Localstack.FillKeeps` | localstack/localstack_container.go:137 | A key that no mapping writes keeps its starting value. |
| `Localstack.FillLastWins` | localstack/localstack_container.go:132-138 | A key holds the bindings of the last mapping that wrote it. |
| `Localstack.FillValues` | localstack/localstack_container.go:130-147 | Every value in the table is a starting value, or the bindings of some mapping for that key. |
| `Localstack.FillSize` | localstack/localstack_container.go:130-138 | Mappings with pairwise distinct new internal ports add exactly one entry each. |
| `Localstack.HostConfigFailsIff` | localstack/localstack_container.go:129-149 | Under a valid registry, `hostConfig` fails if and only if the list is non-empty and some selected service has no default port, or the list is empty and some supported service has none. |
| `Localstack.HostConfigFirstFailure` | localstack/localstack_container.go:132-136 | Under a valid registry, the error is the `UnsupportedService` of the first selection without a default port. No table is returned. |
| `Localstack.SelectedKeys` | localstack/localstack_container.go:131-138 | With selections, the table's keys are exactly the tcp default ports of the selected services. |
| `Localstack.SelectedLastWins` | localstack/localstack_container.go:132-138 | Assume distinct defaults. For the last selection of a service, the entry at that service's default port is `[0.0.0.0 : override]` when the override is at least 1, else `[0.0.0.0 : default]`. |
| `Localstack.UniqueSelectionsOneEntryEach` | localstack/localstack_container.go:131-138 | Distinct services with distinct default ports give exactly one table entry per selection. |
| `Localstack.SingleAnyHostBinding` | localstack/localstack_container.go:151-187 | Every binding list in a produced table has exactly one element, and its host IP is `0.0.0.0`. |
| `Localstack.RegistryTable` | localstack/localstack_container.go:139-146 | Without selections, the key set is exactly the tcp default ports of the supported services. Every entry's host port equals its internal port number. |
| `Localstack.RegistryTableSize` | localstack/localstack_container.go:139-146 | Assume distinct defaults and no repeated supported service. Then the no-selection table has exactly one entry per supported service. |
| `Localstack.RegistryFirstFailure` | localstack/localstack_container.go:140-144 | Under a valid registry, the no-selection error is the `UnsupportedService` of the first supported service without a default port. No table is returned. |
| `Localstack.RegistryTableSucceeds` | localstack/localstack_container.go:139-146 | Assume a valid registry in which every supported service has a default port. Then the no-selection table is always produced. |
| `Localstack.ObjectStorageOverrideExample` | localstack/localstack_container.go:111-170 | An object-storage selection with port 9000 and default 4572 gives the table `{4572/tcp → [0.0.0.0:9000]}` and the environment `["SERVICES=s3"]`. |
| `Text.ToLower` | localstack/localstack_container.go:122 | The result has the same length as the input, is lower-cased character by character, and contains no upper-case letter. |
| `Text.ToLowerJoin` | localstack/localstack_container.go:122 | For a separator that is not a letter, lower-casing the whole joined string equals joining the lower-cased names. |
| `Text.Join` | localstack/localstack_container.go:122 | The joined string starts with the first name, and with two or more names the separator follows it. `Text.SplitJoin` is what fixes its full meaning. |
| `Text.Split` | localstack/localstack_container.go:122 | The Go code never splits. `Split` is the reference inverse of the `Join` on this line, used only for the round trip. It gives at least one piece, and no piece contains the separator. |
| `Text.SplitJoin` | localstack/localstack_container.go:122 | When no name contains the separator, `Split` gives back exactly the list that `Join` was given. |
| `Nat.NewPort` | localstack/localstack_container.go:160-163 | It succeeds exactly for port numbers 0..65535, and gives the port with the requested protocol and number. Otherwise it fails with `InvalidPort`. |

## Left out

- `New`, `Start`, `Stop` and `pullImage` (localstack/localstack_container.go:35-109): Docker client calls, image pulls streamed to stdout, fixed 5-second sleeps and JSON logging. These are I/O against a foreign runtime, including the double `ImagePull`.
- localstack/localstack_sessions.go: fixed-endpoint AWS SDK session builders, whose only logic is a `panic` on SDK failure.
- The contents of the `services` package. Port numbers, enum names and the registry order are parameters, not constants.
- `nil` entries in the Go slice of `*ServiceConfig`: Go would panic on them, and the model's selections are values.
- Text.ToLower: models ASCII case mapping only, not Go's full Unicode `strings.ToLower`.
- Localstack.HostConfigFailsIff: is stated for a valid registry only. Otherwise `nat.NewPort` can also fail on an out-of-range default. `MappingForService` and `MappingForServiceConfig` state that this failure is `PortFailed(InvalidPort(default))`.
- Localstack.ServicesEnvRoundTrip: is stated only for names without commas. A name containing a comma cannot be recovered from the joined value.
