/** The addressable network as it runs. It wraps any network; here it wraps a switch, through
    the state that SwitchDevices.Network is proved to compute. */
module AddressableDevices {
  import opened Bytes
  import opened Ipx
  import A = Addressable
  import S = Switch

  /** The random part of a new address. */
  type Draw = d: seq<byte> | |d| == 5 witness [0, 0, 0, 0, 0]

  function AddrOf(d: Draw): Addr { [0x02] + d }

  class Node {
    const id: int     // of the inner node
    const addr: Addr

    constructor (i: int, a: Addr)
      ensures id == i && addr == a
    {
      id, addr := i, a;
    }
  }

  class Network {
    var inner: S.Net
    var nodesByIPX: map<Addr, Node>

    ghost var addrs: map<int, Addr>
    ghost var delivered: map<int, seq<S.Item>>

    ghost function Model(): A.Net
      reads this
    {
      A.Net(inner, addrs, InUse(), delivered)
    }

    ghost function InUse(): map<Addr, int>
      reads this`nodesByIPX
    {
      map a | a in nodesByIPX :: nodesByIPX[a].id
    }

    ghost predicate Valid()
      reads this
    {
      A.Shape(Model())
    }

    /** The node was made by this network. */
    ghost predicate Mine(node: Node)
      reads this
    {
      node.id in inner.pipes && node.id in addrs && addrs[node.id] == node.addr
    }

    constructor ()
      ensures Valid() && Model() == A.EMPTY
    {
      inner, nodesByIPX, addrs, delivered := S.EMPTY, map[], map[], map[];
    }

    /** Draws addresses until one is unused; the draws must contain one. */
    method PickAddress(draws: seq<Draw>) returns (addr: Addr)
      requires exists i :: 0 <= i < |draws| && AddrOf(draws[i]) !in nodesByIPX
      ensures addr !in nodesByIPX && A.Local(addr)
      ensures exists i :: 0 <= i < |draws| && addr == AddrOf(draws[i])
                          && forall j | 0 <= j < i :: AddrOf(draws[j]) in nodesByIPX
    {
      var i := 0;
      while AddrOf(draws[i]) in nodesByIPX
        invariant 0 <= i < |draws| && forall j | 0 <= j < i :: AddrOf(draws[j]) in nodesByIPX
        decreases |draws| - i
      {
        i := i + 1;
      }
      addr := AddrOf(draws[i]);
    }

    method NewNode(draws: seq<Draw>) returns (result: Node)
      requires Valid() && exists i :: 0 <= i < |draws| && AddrOf(draws[i]) !in nodesByIPX
      modifies this
      ensures Valid() && Mine(result) && result.addr !in old(nodesByIPX) && A.Local(result.addr)
      ensures Model() == A.NewNode(old(Model()), result.addr)
    {
      hide InUse, A.Shape, A.Local, AddrOf;
      var id := inner.nextNodeID;
      inner := S.NewNode(inner);
      var addr := PickAddress(draws);
      result := new Node(id, addr);
      Register(result);
      addrs := addrs[id := addr];
      delivered := delivered[id := []];
      A.NewNodeShape(old(Model()), addr);
    }

    method Register(node: Node)
      modifies this`nodesByIPX
      ensures InUse() == old(InUse())[node.addr := node.id]
    {
      nodesByIPX := nodesByIPX[node.addr := node];
    }

    /** Reports a wrong source address, or else any error of the inner network. */
    method WritePacket(node: Node, packet: Packet, now: int) returns (wrongAddress: bool, failed: bool)
      requires Valid() && Mine(node)
      modifies this
      ensures Valid() && Model() == A.WritePacket(old(Model()), node.id, packet, now)
      ensures wrongAddress <==>
              packet.header.src.network != ZERO_NETWORK || packet.header.src.addr != node.addr
      ensures failed <==> !wrongAddress && S.WriteFails(old(inner), node.id, packet, now)
    {
      hide S.WriteFails;
      if packet.header.src.network != ZERO_NETWORK || packet.header.src.addr != node.addr {
        return true, false;
      }
      failed := S.WriteFails(inner, node.id, packet, now);
      inner := S.WritePacket(inner, node.id, packet, now);
      wrongAddress := false;
    }

    method Close(node: Node)
      requires Valid() && Mine(node)
      modifies this
      ensures Valid() && Model() == A.Close(old(Model()), node.id)
    {
      nodesByIPX := nodesByIPX - {node.addr};
      inner := S.Close(inner, node.id);
      assert InUse() == old(InUse()) - {node.addr};
    }

    /** Reads until a packet turns up that is really for this node, or none is waiting. */
    method ReadPacket(node: Node) returns (packet: Option<Packet>, err: Option<S.PipeError>)
      requires Valid() && Mine(node)
      modifies this
      ensures Valid() && Model() == A.ReadPacket(old(Model()), node.id)
      ensures err == S.ReadError(old(inner).pipes[node.id])
      ensures match A.NextFor(old(inner).pipes[node.id], node.addr)
              case Some(x) =>
                && packet == Some(x.packet)
                && delivered == old(delivered)[node.id := old(delivered)[node.id] + [x]]
              case None => packet == None && delivered == old(delivered)
    {
      hide InUse, A.ReadPacket, A.NextFor, S.Read;
      var id := node.id;
      err := S.ReadError(inner.pipes[id]);
      while true
        invariant Valid() && Mine(node) && delivered == old(delivered)
        invariant A.ReadPacket(Model(), id) == A.ReadPacket(old(Model()), id)
        invariant A.NextFor(inner.pipes[id], node.addr) == A.NextFor(old(inner).pipes[id], node.addr)
        decreases |inner.pipes[id].buffer|
      {
        A.ReadOnce(Model(), id);
        var (next, x) := S.Read(inner, id);
        inner := next;
        if x.None? {
          return None, err;
        }
        packet := Some(x.value.packet);
        var dest := packet.value.header.dest;
        if dest.network == ZERO_NETWORK && (dest.addr == node.addr || dest.addr == ADDR_BROADCAST) {
          delivered := delivered[id := delivered[id] + [x.value]];
          return;
        }
      }
    }
  }
}
