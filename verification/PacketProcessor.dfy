/** The packet processor: one buffer and one prefix byte around writing and reading a packet. */
module PacketProcessing {
  import opened Bits
  import opened Memory
  import opened Schema
  import opened Packets
  import opened Framing
  import opened Endpoints
  import Network

  const PACKET_PROCESSOR_ERROR_NONE := 0
  const PACKET_PROCESSOR_ERROR_WRITE_PACKET_FAILED := 3
  const PACKET_PROCESSOR_ERROR_READ_PACKET_FAILED := 4

  const MAX_PREFIX_BYTES := 9

  /** What a packet is written as, if it meets the source's demands and fits the buffer. */
  function Framer(info: PacketInfo, n: int32, maxPacketSize: nat): Packet -> Option<seq<byte>> {
    p => if Writable(n, NO_HEADER, p) && |StreamBits(info, n, NO_HEADER, p)| <= 8 * maxPacketSize
         then Some(Frame(info, n, NO_HEADER, p)) else None
  }

  /** And what a datagram is read as; one shorter than 5 bytes is outside what the source allows. */
  function Unframer(info: PacketInfo, n: int32): seq<byte> -> Option<Packet>
    requires n > 0
  {
    m => if !Framed(info, m) then None else
         match Read(info, n, m, [])
         case Accepted(p, _) => Some(p)
         case Rejected(_) => None
  }

  /** One buffer and one prefix byte around `WritePacket` and `ReadPacket`. */
  class PacketProcessor {
    const info: PacketInfo
    const n: int32
    const maxPacketSize: nat
    const packetBuffer: array<byte>
    var error: int

    ghost predicate Valid()
    {
      && info.protocolId != 0 && n > 0
      && !info.rawFormat && info.prefixBytes == 1
      && 0 < maxPacketSize <= packetBuffer.Length && maxPacketSize % 4 == 0
    }

    /** The size is rounded up to a word and still fits the buffer, which has room for a prefix. */
    constructor (protocolId: u32, maxSize: nat, n: int32)
      requires protocolId != 0 && maxSize > 0 && n > 0
      ensures Valid() && fresh(packetBuffer) && info == PacketInfo(false, 1, protocolId) && this.n == n
      ensures maxSize <= maxPacketSize < maxSize + 4 && packetBuffer.Length == maxSize + MAX_PREFIX_BYTES
    {
      error := PACKET_PROCESSOR_ERROR_NONE;
      info := PacketInfo(false, 1, protocolId);
      this.n := n;
      maxPacketSize := maxSize + (if maxSize % 4 != 0 then 4 - maxSize % 4 else 0);
      packetBuffer := new byte[maxSize + MAX_PREFIX_BYTES](_ => 0);
    }

    method WritePacket(p: Packet) returns (packetBytes: int)
      requires Valid() && Writable(n, NO_HEADER, p)
      requires |StreamBits(info, n, NO_HEADER, p)| <= 8 * maxPacketSize
      modifies this`error, packetBuffer
      ensures error == PACKET_PROCESSOR_ERROR_NONE && 0 < packetBytes <= maxPacketSize <= packetBuffer.Length
      ensures packetBuffer[..packetBytes] == Frame(info, n, NO_HEADER, p)
      ensures Framer(info, n, maxPacketSize)(p) == Some(packetBuffer[..packetBytes])
    {
      hide Frame, StreamBits, Writable, Network.Written, Pad32;
      FrameHoldsField(info, n, NO_HEADER, p);
      FrameSize(info, n, NO_HEADER, p, maxPacketSize);
      error := PACKET_PROCESSOR_ERROR_NONE;
      packetBytes := Network.WritePacket(info, p, packetBuffer, maxPacketSize, NO_HEADER, n);
      error := if packetBytes <= 0 then PACKET_PROCESSOR_ERROR_WRITE_PACKET_FAILED else PACKET_PROCESSOR_ERROR_NONE;
    }

    method ReadPacket(data: array<byte>, packetBytes: nat) returns (r: ReadResult)
      requires Valid() && 5 <= packetBytes && 4 * ((packetBytes + 3) / 4) <= data.Length
      modifies this`error
      ensures r == Read(info, n, data[..packetBytes], [])
      ensures Unframer(info, n)(data[..packetBytes]) == if r.Accepted? then Some(r.packet) else None
      ensures error == if r.Accepted? then PACKET_PROCESSOR_ERROR_NONE else PACKET_PROCESSOR_ERROR_READ_PACKET_FAILED
      ensures error != PACKET_PROCESSOR_ERROR_NONE <==> r.Rejected?
    {
      hide Read;
      error := PACKET_PROCESSOR_ERROR_NONE;
      r := Network.ReadPacket(info, data, packetBytes, [], n);
      if r.Rejected? {
        error := PACKET_PROCESSOR_ERROR_READ_PACKET_FAILED;
      }
    }
  }
}
