/**
 * The inventory rows the SSH-config generator reads, reduced to the fields
 * it touches.
 */
module Models {
  import opened Wrappers
  import opened Numeric
  import opened Net

  type Port = uint16

  datatype Machine = Machine(hostname: string, owner: string)

  /** One address of a machine on one network, with an optional SSH port for that address. */
  datatype MachineAddress = MachineAddress(network: string, address: IpNetwork, sshPort: Option<Port>)

  /** A directed preference from network `name` to `otherNetwork`; lower priority is preferred. */
  datatype NetworkLink = NetworkLink(name: string, otherNetwork: string, priority: int32)

  /** A machine with the addresses that belong to it, as the grouped load yields them. */
  datatype MachineEntry = MachineEntry(machine: Machine, addresses: seq<MachineAddress>)
}
