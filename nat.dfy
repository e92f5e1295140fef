/**
 * The parts of Docker's `go-connections/nat` package that the container
 * configuration uses: a container port, a host binding, and `NewPort`.
 */
module Nat {
  import opened Wrappers

  /** Largest port number `NewPort` accepts (it parses the number as a 16-bit unsigned value). */
  const MaxPort := 65535

  /**
   * `nat.Port`, which Docker renders as "<number>/<protocol>"; the rendering is
   * injective, so the pair is kept instead of the string.
   */
  datatype Port = Port(proto: string, number: int)

  /** `nat.PortBinding`: the host address and the host port a container port is published on. */
  datatype PortBinding = PortBinding(hostIP: string, hostPort: int)

  datatype PortError = InvalidPort(number: int)

  predicate InRange(n: int) {
    0 <= n <= MaxPort
  }

  /** `nat.NewPort(proto, strconv.Itoa(n))`: fails unless `n` is a 16-bit unsigned number. */
  function NewPort(proto: string, n: int): (r: Result<Port, PortError>)
    ensures r.Ok? <==> InRange(n)
    ensures r.Ok? ==> r.value.proto == proto && r.value.number == n
    ensures r.Err? ==> r.error == InvalidPort(n)
  {
    if InRange(n) then Ok(Port(proto, n)) else Err(InvalidPort(n))
  }

}
