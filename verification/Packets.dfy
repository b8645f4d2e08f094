/** Packets and the reliable header that frames carry. */
module Packets {
  import opened Bytes

  datatype Packet = Packet(ty: nat, sender: bytestring, endpoints: seq<nat>, timestamp: uint64, payload: bytestring)

  datatype Header = Header(flags: byte, seqno: uint32, ack: uint32)

  // bit numbers in Header.flags
  const FLAG_ACK_ONLY := 0
  const FLAG_UNORDERED := 1
  const FLAG_UNSEQUENCED := 7
}
