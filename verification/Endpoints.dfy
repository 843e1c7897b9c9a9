/** Addresses and datagrams: the sockets themselves are not modelled, only what goes in and comes out. */
module Endpoints {
  import opened Bits

  /** An opaque network address, or the invalid default. */
  datatype Address = NoAddress | Address(id: nat)

  /** A datagram and its other end. */
  datatype Datagram = Datagram(address: Address, data: seq<byte>)

  datatype Option<+T> = None | Some(value: T)
}
