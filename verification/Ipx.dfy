/** IPX addresses and packets, shared by the packet driver and the switch. */
module Ipx {
  import opened Bytes

  const HEADER_LENGTH := 30

  type Addr = s: seq<byte> | |s| == 6 witness [0, 0, 0, 0, 0, 0]
  type NetworkNum = s: seq<byte> | |s| == 4 witness [0, 0, 0, 0]

  const ZERO_NETWORK: NetworkNum := [0, 0, 0, 0]
  const ADDR_NULL: Addr := [0, 0, 0, 0, 0, 0]
  const ADDR_BROADCAST: Addr := [0xff, 0xff, 0xff, 0xff, 0xff, 0xff]

  datatype HeaderAddr = HeaderAddr(network: NetworkNum, addr: Addr, socket: u16)

  datatype Header = Header(
    checksum: u16, length: u16, transControl: byte, packetType: byte, dest: HeaderAddr, src: HeaderAddr)

  datatype Packet = Packet(header: Header, payload: seq<byte>)
}
