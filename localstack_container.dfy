/**
 * The configuration core of the LocalStack container wrapper: the container
 * config (image and `SERVICES=` environment entry) and the host config (the
 * table from container port to host bindings), both computed from a possibly
 * empty list of service selections.
 */
module Localstack {
  import opened Wrappers
  import opened Nat
  import opened Services
  import opened Text

  const ServicesKey := "SERVICES="
  const AnyHost := "0.0.0.0"
  const Tcp := "tcp"

  /** Whatever `getMappingFor…` or `hostConfig` hand back as Go's `error`. */
  datatype Error = LookupFailed(lookup: LookupError) | PortFailed(port: PortError)

  /** `container.Config`, reduced to the fields set here; an empty `env` is Go's unset `Env`. */
  datatype Config = Config(image: string, env: seq<string>)

  type Table = map<Port, seq<PortBinding>>

  /** `container.HostConfig`, reduced to its `PortBindings`. */
  datatype HostConfig = HostConfig(portBindings: Table)

  /** The (internal port, bindings) pair a `getMappingFor…` call returns. */
  datatype Mapping = Mapping(internal: Port, bindings: seq<PortBinding>)

  // ---------------------------------------------------------------------
  // containerConfig

  /** `Service.String` of every selection, in input order. */
  function ServiceNames(reg: Registry, cfgs: seq<ServiceConfig>): seq<string> {
    seq(|cfgs|, i requires 0 <= i < |cfgs| => reg.name(cfgs[i].service))
  }

  /** The environment list `containerConfig` leaves in `conf.Env`. */
  function ServicesEnv(reg: Registry, cfgs: seq<ServiceConfig>): (env: seq<string>)
    ensures |cfgs| == 0 <==> env == []
    ensures |env| <= 1
    ensures |env| == 1 ==> ServicesKey <= env[0]
  {
    if |cfgs| == 0 then [] else [ServicesKey + ToLower(Join(ServiceNames(reg, cfgs), ','))]
  }

  /** `containerConfig(img, serviceConfigs)`. */
  method BuildContainerConfig(img: string, reg: Registry, cfgs: seq<ServiceConfig>) returns (conf: Config)
    ensures conf.image == img
    ensures conf.env == ServicesEnv(reg, cfgs)
  {
    conf := Config(img, []);
    var sb := "";
    if |cfgs| > 0 {
      sb := sb + ServicesKey;
      assert sb == ServicesKey;
      var names: seq<string> := [];
      for i := 0 to |cfgs|
        invariant |names| == i
        invariant forall j :: 0 <= j < i ==> names[j] == reg.name(cfgs[j].service)
      {
        names := names + [reg.name(cfgs[i].service)];
      }
      assert names == ServiceNames(reg, cfgs);
      sb := sb + ToLower(Join(names, ','));
      conf := conf.(env := [sb]);
    }
  }

  /**
   * The one entry of a non-empty selection list is `SERVICES=` followed by a
   * value that splits at commas into the lower-cased names, one per
   * selection and in input order, duplicates included.
   */
  lemma ServicesEnvRoundTrip(reg: Registry, cfgs: seq<ServiceConfig>)
    requires |cfgs| > 0
    requires forall i :: 0 <= i < |cfgs| ==> ',' !in reg.name(cfgs[i].service)
    ensures var env := ServicesEnv(reg, cfgs);
      && |env| == 1
      && ServicesKey <= env[0]
      && var parts := Split(env[0][|ServicesKey|..], ',');
         && |parts| == |cfgs|
         && forall i :: 0 <= i < |cfgs| ==> parts[i] == ToLower(reg.name(cfgs[i].service))
  {
    var names := ServiceNames(reg, cfgs);
    var lowered := LowerAll(names);
    var v := ToLower(Join(names, ','));
    ToLowerJoin(names, ',');
    forall i | 0 <= i < |lowered| ensures ',' !in lowered[i] {
      ToLowerKeepsSepOut(names[i], ',');
    }
    SplitJoin(lowered, ',');
    assert (ServicesKey + v)[|ServicesKey|..] == v;
  }

  // ---------------------------------------------------------------------
  // getMappingForService and getMappingForServiceConfig

  /** `getMappingForService(s)`: the default port, published on the same host port. */
  function MappingForService(reg: Registry, s: Service): (r: Result<Mapping, Error>)
    ensures s !in reg.defaults ==> r == Err(LookupFailed(UnsupportedService(s)))
    ensures s in reg.defaults && !InRange(reg.defaults[s]) ==> r == Err(PortFailed(InvalidPort(reg.defaults[s])))
    ensures r.Ok? <==> s in reg.defaults && InRange(reg.defaults[s])
    ensures r.Ok? ==> r.value.internal == Port(Tcp, reg.defaults[s])
    ensures r.Ok? ==> r.value.bindings == [PortBinding(AnyHost, r.value.internal.number)]
  {
    match GetDefaultPort(reg, s)
    case Err(e) => Err(LookupFailed(e))
    case Ok(p) =>
      match NewPort(Tcp, p)
      case Err(e) => Err(PortFailed(e))
      case Ok(internalPort) => Ok(Mapping(internalPort, [PortBinding(AnyHost, p)]))
  }

  /**
   * `getMappingForServiceConfig(cfg)`: the internal port is always the
   * default; the host port is the override when it is at least 1.
   */
  function MappingForServiceConfig(reg: Registry, cfg: ServiceConfig): (r: Result<Mapping, Error>)
    ensures var d := MappingForService(reg, cfg.service);
      && (cfg.port < 1 ==> r == d)
      && r.Ok? == d.Ok?
      && (r.Ok? ==> r.value.internal == d.value.internal)
      && (r.Ok? && cfg.port >= 1 ==> r.value.bindings == [PortBinding(AnyHost, cfg.port)])
      && (r.Err? ==> r.error == d.error)
  {
    match GetDefaultPort(reg, cfg.service)
    case Err(e) => Err(LookupFailed(e))
    case Ok(def) =>
      var port := if cfg.port < 1 then def else cfg.port;
      match NewPort(Tcp, def)
      case Err(e) => Err(PortFailed(e))
      case Ok(internalPort) => Ok(Mapping(internalPort, [PortBinding(AnyHost, port)]))
  }

  // ---------------------------------------------------------------------
  // hostConfig

  /**
   * Writes the mappings into `m` in order, each one over whatever the key
   * held before, and stops at the first error.
   */
  function Fill(ms: seq<Result<Mapping, Error>>, m: Table): Result<Table, Error>
    decreases |ms|
  {
    if ms == [] then Ok(m)
    else match ms[0]
      case Err(e) => Err(e)
      case Ok(mp) => Fill(ms[1..], m[mp.internal := mp.bindings])
  }

  function SelectionMappings(reg: Registry, cfgs: seq<ServiceConfig>): seq<Result<Mapping, Error>> {
    seq(|cfgs|, i requires 0 <= i < |cfgs| => MappingForServiceConfig(reg, cfgs[i]))
  }

  function RegistryMappings(reg: Registry): seq<Result<Mapping, Error>> {
    seq(|reg.supported|, i requires 0 <= i < |reg.supported| => MappingForService(reg, reg.supported[i]))
  }

  /** What `hostConfig(serviceConfigs)` returns: the selections, or the whole registry when there are none. */
  function HostConfigOf(reg: Registry, cfgs: seq<ServiceConfig>): Result<HostConfig, Error> {
    var ms := if |cfgs| > 0 then SelectionMappings(reg, cfgs) else RegistryMappings(reg);
    match Fill(ms, map[])
    case Err(e) => Err(e)
    case Ok(m) => Ok(HostConfig(m))
  }

  /** `hostConfig(serviceConfigs)`: fills the table in a loop and returns on the first error. */
  method BuildHostConfig(reg: Registry, cfgs: seq<ServiceConfig>) returns (r: Result<HostConfig, Error>)
    ensures r == HostConfigOf(reg, cfgs)
  {
    var m: Table := map[];
    if |cfgs| > 0 {
      ghost var ms := SelectionMappings(reg, cfgs);
      for i := 0 to |cfgs|
        invariant Fill(ms[i..], m) == Fill(ms, map[])
      {
        var mapping := MappingForServiceConfig(reg, cfgs[i]);
        assert ms[i..][0] == mapping && ms[i..][1..] == ms[i + 1..];
        if mapping.Err? {
          return Err(mapping.error);
        }
        m := m[mapping.value.internal := mapping.value.bindings];
      }
      assert ms[|cfgs|..] == [];
    } else {
      ghost var ms := RegistryMappings(reg);
      for i := 0 to |reg.supported|
        invariant Fill(ms[i..], m) == Fill(ms, map[])
      {
        var mapping := MappingForService(reg, reg.supported[i]);
        assert ms[i..][0] == mapping && ms[i..][1..] == ms[i + 1..];
        if mapping.Err? {
          return Err(mapping.error);
        }
        m := m[mapping.value.internal := mapping.value.bindings];
      }
      assert ms[|reg.supported|..] == [];
    }
    return Ok(HostConfig(m));
  }

  // ---------------------------------------------------------------------
  // Properties of Fill

  /** A fill fails exactly when one of its mappings failed. */
  lemma {:induction false} FillFailsIff(ms: seq<Result<Mapping, Error>>, m: Table)
    ensures Fill(ms, m).Err? <==> exists i :: 0 <= i < |ms| && ms[i].Err?
    decreases |ms|
  {
    if ms != [] && ms[0].Ok? {
      var mp := ms[0].value;
      FillFailsIff(ms[1..], m[mp.internal := mp.bindings]);
      if exists i :: 0 <= i < |ms| && ms[i].Err? {
        var i :| 0 <= i < |ms| && ms[i].Err?;
        assert ms[1..][i - 1].Err?;
      }
      if exists i :: 0 <= i < |ms[1..]| && ms[1..][i].Err? {
        var i :| 0 <= i < |ms[1..]| && ms[1..][i].Err?;
        assert ms[i + 1].Err?;
      }
    }
  }

  /** The error a fill reports is that of its first failing mapping. */
  lemma {:induction false} FillFirstError(ms: seq<Result<Mapping, Error>>, m: Table, i: nat)
    requires i < |ms| && ms[i].Err?
    requires forall j :: 0 <= j < i ==> ms[j].Ok?
    ensures Fill(ms, m) == Err(ms[i].error)
    decreases i
  {
    if i > 0 {
      var mp := ms[0].value;
      assert forall j :: 0 <= j < i - 1 ==> ms[1..][j] == ms[j + 1];
      FillFirstError(ms[1..], m[mp.internal := mp.bindings], i - 1);
    }
  }

  /** The keys of a filled table are those it started with plus every mapping's internal port. */
  lemma {:induction false} FillKeys(ms: seq<Result<Mapping, Error>>, m: Table, t: Table)
    requires Fill(ms, m) == Ok(t)
    ensures forall k :: k in t <==> k in m || exists i :: 0 <= i < |ms| && ms[i].Ok? && ms[i].value.internal == k
    decreases |ms|
  {
    if ms != [] {
      var mp := ms[0].value;
      var m' := m[mp.internal := mp.bindings];
      FillKeys(ms[1..], m', t);
      forall k ensures k in t <==> k in m || exists i :: 0 <= i < |ms| && ms[i].Ok? && ms[i].value.internal == k {
        if exists i :: 0 <= i < |ms[1..]| && ms[1..][i].Ok? && ms[1..][i].value.internal == k {
          var i :| 0 <= i < |ms[1..]| && ms[1..][i].Ok? && ms[1..][i].value.internal == k;
          assert ms[i + 1] == ms[1..][i];
        }
        if exists i :: 0 <= i < |ms| && ms[i].Ok? && ms[i].value.internal == k {
          var i :| 0 <= i < |ms| && ms[i].Ok? && ms[i].value.internal == k;
          if i > 0 {
            assert ms[1..][i - 1] == ms[i];
          }
        }
      }
    }
  }

  /** A key no mapping writes keeps its starting value. */
  lemma {:induction false} FillKeeps(ms: seq<Result<Mapping, Error>>, m: Table, t: Table, k: Port)
    requires Fill(ms, m) == Ok(t)
    requires k in m
    requires forall i :: 0 <= i < |ms| && ms[i].Ok? ==> ms[i].value.internal != k
    ensures k in t && t[k] == m[k]
    decreases |ms|
  {
    if ms != [] {
      var mp := ms[0].value;
      assert forall i :: 0 <= i < |ms| - 1 ==> ms[1..][i] == ms[i + 1];
      FillKeeps(ms[1..], m[mp.internal := mp.bindings], t, k);
    }
  }

  /** The mapping at position `j` is the last one writing its internal port. */
  predicate LastWriter(ms: seq<Result<Mapping, Error>>, j: int) {
    && 0 <= j < |ms|
    && ms[j].Ok?
    && forall i :: j < i < |ms| && ms[i].Ok? ==> ms[i].value.internal != ms[j].value.internal
  }

  /** Last write wins: a key holds the bindings of the last mapping that wrote it. */
  lemma {:induction false} FillLastWins(ms: seq<Result<Mapping, Error>>, m: Table, t: Table, j: int)
    requires Fill(ms, m) == Ok(t)
    requires LastWriter(ms, j)
    ensures ms[j].value.internal in t && t[ms[j].value.internal] == ms[j].value.bindings
    decreases |ms|
  {
    var mp := ms[0].value;
    var m' := m[mp.internal := mp.bindings];
    assert forall i :: 0 <= i < |ms| - 1 ==> ms[1..][i] == ms[i + 1];
    if j == 0 {
      FillKeeps(ms[1..], m', t, mp.internal);
    } else {
      FillLastWins(ms[1..], m', t, j - 1);
    }
  }

  /** Every value of a filled table is a starting value or the bindings of some mapping for that key. */
  lemma {:induction false} FillValues(ms: seq<Result<Mapping, Error>>, m: Table, t: Table)
    requires Fill(ms, m) == Ok(t)
    ensures forall k :: k in t ==>
      (k in m && t[k] == m[k]) ||
      exists i :: 0 <= i < |ms| && ms[i].Ok? && ms[i].value.internal == k && ms[i].value.bindings == t[k]
    decreases |ms|
  {
    if ms != [] {
      var mp := ms[0].value;
      var m' := m[mp.internal := mp.bindings];
      FillValues(ms[1..], m', t);
      forall k | k in t ensures
        (k in m && t[k] == m[k]) ||
        exists i :: 0 <= i < |ms| && ms[i].Ok? && ms[i].value.internal == k && ms[i].value.bindings == t[k]
      {
        if exists i :: 0 <= i < |ms[1..]| && ms[1..][i].Ok? && ms[1..][i].value.internal == k && ms[1..][i].value.bindings == t[k] {
          var i :| 0 <= i < |ms[1..]| && ms[1..][i].Ok? && ms[1..][i].value.internal == k && ms[1..][i].value.bindings == t[k];
          assert ms[i + 1] == ms[1..][i];
        } else if k == mp.internal {
          assert ms[0].value.bindings == t[k];
        }
      }
    }
  }

  /** Mappings with pairwise distinct internal ports, none already in `m`, add one entry each. */
  lemma {:induction false} FillSize(ms: seq<Result<Mapping, Error>>, m: Table, t: Table)
    requires Fill(ms, m) == Ok(t)
    requires forall i :: 0 <= i < |ms| && ms[i].Ok? ==> ms[i].value.internal !in m
    requires forall i, j :: 0 <= i < j < |ms| && ms[i].Ok? && ms[j].Ok? ==> ms[i].value.internal != ms[j].value.internal
    ensures |t| == |m| + |ms|
    decreases |ms|
  {
    if ms != [] {
      var mp := ms[0].value;
      var m' := m[mp.internal := mp.bindings];
      assert |m'| == |m| + 1;
      assert forall i :: 0 <= i < |ms| - 1 ==> ms[1..][i] == ms[i + 1];
      forall i | 0 <= i < |ms[1..]| && ms[1..][i].Ok? ensures ms[1..][i].value.internal !in m' {
        assert ms[1..][i] == ms[i + 1];
      }
      FillSize(ms[1..], m', t);
    }
  }

  // ---------------------------------------------------------------------
  // Properties of hostConfig

  /** With a valid registry, `hostConfig` fails exactly when a looked-up service has no default port. */
  lemma HostConfigFailsIff(reg: Registry, cfgs: seq<ServiceConfig>)
    requires reg.Valid()
    ensures HostConfigOf(reg, cfgs).Err? <==>
      if |cfgs| > 0 then exists i :: 0 <= i < |cfgs| && cfgs[i].service !in reg.defaults
      else exists i :: 0 <= i < |reg.supported| && reg.supported[i] !in reg.defaults
  {
    if |cfgs| > 0 {
      var ms := SelectionMappings(reg, cfgs);
      FillFailsIff(ms, map[]);
      assert forall i :: 0 <= i < |cfgs| ==> (ms[i].Err? <==> cfgs[i].service !in reg.defaults);
    } else {
      var ms := RegistryMappings(reg);
      FillFailsIff(ms, map[]);
      assert forall i :: 0 <= i < |ms| ==> (ms[i].Err? <==> reg.supported[i] !in reg.defaults);
    }
  }

  /** Fail fast: the error is the lookup failure of the first selection without a default port. */
  lemma HostConfigFirstFailure(reg: Registry, cfgs: seq<ServiceConfig>, i: nat)
    requires reg.Valid()
    requires i < |cfgs| && cfgs[i].service !in reg.defaults
    requires forall j :: 0 <= j < i ==> cfgs[j].service in reg.defaults
    ensures HostConfigOf(reg, cfgs) == Err(LookupFailed(UnsupportedService(cfgs[i].service)))
  {
    FillFirstError(SelectionMappings(reg, cfgs), map[], i);
  }

  /** With selections, the table's keys are exactly the tcp default ports of the selected services. */
  lemma SelectedKeys(reg: Registry, cfgs: seq<ServiceConfig>, h: HostConfig)
    requires |cfgs| > 0 && HostConfigOf(reg, cfgs) == Ok(h)
    ensures forall k :: k in h.portBindings <==>
      exists i :: 0 <= i < |cfgs| && cfgs[i].service in reg.defaults && k == Port(Tcp, reg.defaults[cfgs[i].service])
  {
    var ms := SelectionMappings(reg, cfgs);
    FillKeys(ms, map[], h.portBindings);
    FillFailsIff(ms, map[]);
    assert forall i :: 0 <= i < |cfgs| ==> ms[i].Ok? ==> ms[i].value.internal == Port(Tcp, reg.defaults[cfgs[i].service]);
  }

  /**
   * Last write wins: the entry for a selected service's default port holds the
   * host port of the last selection of that service, the override when it is
   * at least 1 and the default otherwise.
   */
  lemma SelectedLastWins(reg: Registry, cfgs: seq<ServiceConfig>, h: HostConfig, j: nat)
    requires reg.DistinctDefaults()
    requires |cfgs| > 0 && HostConfigOf(reg, cfgs) == Ok(h)
    requires j < |cfgs|
    requires forall i :: j < i < |cfgs| ==> cfgs[i].service != cfgs[j].service
    ensures cfgs[j].service in reg.defaults
    ensures var def := reg.defaults[cfgs[j].service];
      && Port(Tcp, def) in h.portBindings
      && h.portBindings[Port(Tcp, def)] == [PortBinding(AnyHost, if cfgs[j].port >= 1 then cfgs[j].port else def)]
  {
    var ms := SelectionMappings(reg, cfgs);
    FillFailsIff(ms, map[]);
    assert ms[j].Ok?;
    forall i | j < i < |ms| && ms[i].Ok? ensures ms[i].value.internal != ms[j].value.internal {
      assert cfgs[i].service != cfgs[j].service;
    }
    FillLastWins(ms, map[], h.portBindings, j);
  }

  /** Distinct services with distinct default ports give one table entry per selection. */
  lemma UniqueSelectionsOneEntryEach(reg: Registry, cfgs: seq<ServiceConfig>, h: HostConfig)
    requires reg.DistinctDefaults()
    requires forall i, j :: 0 <= i < j < |cfgs| ==> cfgs[i].service != cfgs[j].service
    requires |cfgs| > 0 && HostConfigOf(reg, cfgs) == Ok(h)
    ensures |h.portBindings| == |cfgs|
  {
    var ms := SelectionMappings(reg, cfgs);
    forall i, j | 0 <= i < j < |ms| && ms[i].Ok? && ms[j].Ok? ensures ms[i].value.internal != ms[j].value.internal {
      assert cfgs[i].service != cfgs[j].service;
    }
    FillSize(ms, map[], h.portBindings);
  }

  /** Every entry of the table is a single binding on 0.0.0.0. */
  lemma SingleAnyHostBinding(reg: Registry, cfgs: seq<ServiceConfig>, h: HostConfig)
    requires HostConfigOf(reg, cfgs) == Ok(h)
    ensures forall k :: k in h.portBindings ==>
      |h.portBindings[k]| == 1 && h.portBindings[k][0].hostIP == AnyHost
  {
    var ms := if |cfgs| > 0 then SelectionMappings(reg, cfgs) else RegistryMappings(reg);
    FillValues(ms, map[], h.portBindings);
    assert forall i :: 0 <= i < |ms| && ms[i].Ok? ==>
      |ms[i].value.bindings| == 1 && ms[i].value.bindings[0].hostIP == AnyHost;
  }

  /**
   * Without selections, the table has one key per supported service's tcp
   * default port, and each is published on the same host port.
   */
  lemma RegistryTable(reg: Registry, h: HostConfig)
    requires HostConfigOf(reg, []) == Ok(h)
    ensures forall k :: k in h.portBindings <==>
      exists i :: 0 <= i < |reg.supported| && reg.supported[i] in reg.defaults && k == Port(Tcp, reg.defaults[reg.supported[i]])
    ensures forall k :: k in h.portBindings ==> h.portBindings[k] == [PortBinding(AnyHost, k.number)]
  {
    var ms := RegistryMappings(reg);
    FillKeys(ms, map[], h.portBindings);
    FillValues(ms, map[], h.portBindings);
    FillFailsIff(ms, map[]);
    assert forall i :: 0 <= i < |ms| ==> ms[i] == MappingForService(reg, reg.supported[i]);
  }

  /** Without selections and with a valid registry, the table is always produced. */
  lemma RegistryTableSucceeds(reg: Registry)
    requires reg.Valid()
    requires forall i :: 0 <= i < |reg.supported| ==> reg.supported[i] in reg.defaults
    ensures HostConfigOf(reg, []).Ok?
  {
    HostConfigFailsIff(reg, []);
  }

  /** Distinct supported services with distinct default ports give one table entry per supported service. */
  lemma RegistryTableSize(reg: Registry, h: HostConfig)
    requires reg.DistinctDefaults()
    requires forall i, j :: 0 <= i < j < |reg.supported| ==> reg.supported[i] != reg.supported[j]
    requires HostConfigOf(reg, []) == Ok(h)
    ensures |h.portBindings| == |reg.supported|
  {
    var ms := RegistryMappings(reg);
    forall i, j | 0 <= i < j < |ms| && ms[i].Ok? && ms[j].Ok? ensures ms[i].value.internal != ms[j].value.internal {
      assert reg.supported[i] != reg.supported[j];
    }
    FillSize(ms, map[], h.portBindings);
  }

  /** Fail fast without selections: the error is that of the first supported service without a default port. */
  lemma RegistryFirstFailure(reg: Registry, i: nat)
    requires reg.Valid()
    requires i < |reg.supported| && reg.supported[i] !in reg.defaults
    requires forall j :: 0 <= j < i ==> reg.supported[j] in reg.defaults
    ensures HostConfigOf(reg, []) == Err(LookupFailed(UnsupportedService(reg.supported[i])))
  {
    FillFirstError(RegistryMappings(reg), map[], i);
  }

  /** An illustrative registry: object storage is service 0, default port 4572, rendered "S3". */
  function ExampleRegistry(): Registry {
    Registry(map[Service(0) := 4572], [Service(0)], (s: Service) => if s == Service(0) then "S3" else "other")
  }

  /**
   * One object-storage selection with host port 9000: the table publishes
   * 4572/tcp on 0.0.0.0:9000 and the environment names the service in lower case.
   */
  lemma ObjectStorageOverrideExample()
    ensures HostConfigOf(ExampleRegistry(), [ServiceConfig(Service(0), 9000)])
      == Ok(HostConfig(map[Port(Tcp, 4572) := [PortBinding(AnyHost, 9000)]]))
    ensures ServicesEnv(ExampleRegistry(), [ServiceConfig(Service(0), 9000)]) == ["SERVICES=s3"]
  {
    var reg, cfgs := ExampleRegistry(), [ServiceConfig(Service(0), 9000)];
    var ms := SelectionMappings(reg, cfgs);
    assert ms == [Ok(Mapping(Port(Tcp, 4572), [PortBinding(AnyHost, 9000)]))];
    var t: Table := map[Port(Tcp, 4572) := [PortBinding(AnyHost, 9000)]];
    assert Fill(ms[1..], map[][Port(Tcp, 4572) := [PortBinding(AnyHost, 9000)]]) == Ok(t);
    assert ServiceNames(reg, cfgs) == ["S3"];
    assert Join(["S3"], ',') == "S3";
    assert ToLower("S3") == [LowerChar('S')] + ToLower("3");
    assert ToLower("S3") == "s3";
    assert ServicesKey + "s3" == "SERVICES=s3";
  }

}
