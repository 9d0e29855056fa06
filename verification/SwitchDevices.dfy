/** The switch as it runs: a routing table, pipes and a network that are updated in place. */
module SwitchDevices {
  import opened Bytes
  import opened Ipx
  import R = Routing
  import S = Switch

  class RoutingTable {
    var addrs: map<HeaderAddr, R.Route>
    var ports: map<int, set<HeaderAddr>>

    ghost function Model(): R.Table
      reads this
    {
      R.Table(addrs, ports)
    }

    constructor ()
      ensures Model() == R.EMPTY
    {
      addrs, ports := map[], map[];
    }

    method CheckDestPort(key: HeaderAddr, destPort: int, now: int) returns (ok: bool)
      ensures ok <==> R.UpToDate(Model(), key, destPort, now)
    {
      if key !in addrs {
        return false;
      }
      if addrs[key].port != destPort {
        return false;
      }
      return now - addrs[key].lastRX < R.FRESH_FOR;
    }

    method Record(sourcePort: int, src: HeaderAddr, now: int)
      modifies this
      ensures Model() == R.Record(old(Model()), sourcePort, src, now)
    {
      if src.addr == ADDR_BROADCAST || src.addr == ADDR_NULL {
        return;
      }
      var key := R.MakeKey(src);
      var ok := CheckDestPort(key, sourcePort, now);
      if ok {
        return;
      }
      if sourcePort !in ports {
        return;
      }
      if key !in addrs {
        ports := ports[sourcePort := ports[sourcePort] + {key}];
        addrs := addrs[key := R.Route(sourcePort, 0)];
      } else if addrs[key].port != sourcePort {
        addrs := addrs[key := addrs[key].(port := sourcePort)];
        // The port has already been reassigned, so this removes the key from the new port.
        if addrs[key].port in ports {
          ports := ports[addrs[key].port := ports[addrs[key].port] - {key}];
        }
        ports := ports[sourcePort := ports[sourcePort] + {key}];
        assert ports == old(ports)[sourcePort := old(ports)[sourcePort] + {key}] by {
          assert old(ports)[sourcePort] - {key} + {key} == old(ports)[sourcePort] + {key};
        }
      }
      addrs := addrs[key := addrs[key].(lastRX := now)];
    }

    method LookupDest(dest: HeaderAddr) returns (port: int)
      ensures port == R.LookupDest(Model(), dest)
    {
      if dest.addr == ADDR_BROADCAST {
        return R.BROADCAST_DEST;
      }
      var key := R.MakeKey(dest);
      if key !in addrs {
        return R.BROADCAST_DEST;
      }
      return addrs[key].port;
    }

    method AddPort(portID: int)
      modifies this
      ensures Model() == R.AddPort(old(Model()), portID)
    {
      ports := ports[portID := {}];
    }

    method DeletePort(portID: int)
      modifies this
      ensures Model() == R.DeletePort(old(Model()), portID)
    {
      if portID !in ports {
        return;
      }
      var todo := ports[portID];
      while todo != {}
        invariant ports == old(ports) && todo <= ports[portID]
        invariant addrs == map k | k in old(addrs)
                                   && !(k in ports[portID] - todo && old(addrs)[k].port == portID) :: old(addrs)[k]
      {
        var key :| key in todo;
        todo := todo - {key};
        if key in addrs && addrs[key].port == portID {
          addrs := addrs - {key};
        }
      }
    }
  }

  class Pipe {
    var ch: seq<Packet>
    var closed: bool

    // The node that reads from it, and the same packets, tagged with their writes.
    ghost const reader: int
    ghost var buffer: seq<S.Item>
    ghost var accepted: seq<S.Item>
    ghost var taken: seq<S.Item>

    ghost function Model(): S.Pipe
      reads this
    {
      S.Pipe(buffer, closed, accepted, taken)
    }

    ghost predicate Valid()
      reads this
    {
      |ch| == |buffer| && forall i | 0 <= i < |ch| :: ch[i] == buffer[i].packet
    }

    constructor (ghost id: int)
      ensures Valid() && Model() == S.NEW_PIPE && reader == id
    {
      ch, closed, reader := [], false, id;
      buffer, accepted, taken := [], [], [];
    }

    method Close()
      requires Valid()
      modifies this
      ensures Valid() && Model() == S.ClosePipe(old(Model()))
    {
      if !closed {
        closed := true;
      }
    }

    method WritePacket(pkt: Packet, ghost write: nat) returns (err: Option<S.PipeError>)
      requires Valid()
      modifies this
      ensures Valid() && (Model(), err) == S.Put(old(Model()), S.Item(write, pkt))
    {
      if closed {
        return Some(S.ClosedPipe);
      }
      if |ch| >= S.MAX_BUFFERED_PACKETS {
        return Some(S.PipeFull);
      }
      ch := ch + [pkt];
      buffer := buffer + [S.Item(write, pkt)];
      accepted := accepted + [S.Item(write, pkt)];
      return None;
    }

    method ReadPacket() returns (pkt: Option<Packet>, err: Option<S.PipeError>)
      requires Valid()
      modifies this
      ensures Valid() && Model() == S.Take(old(Model())).0 && err == S.ReadError(old(Model()))
      ensures var x := S.Take(old(Model())).1; pkt == if x.Some? then Some(x.value.packet) else None
    {
      if closed {
        return None, Some(S.ClosedPipe);
      }
      err := None;
      if |ch| == 0 {
        return None, None;
      }
      pkt := Some(ch[0]);
      taken := taken + [buffer[0]];
      ch, buffer := ch[1..], buffer[1..];
    }
  }

  class Node {
    const nodeID: int
    const rxpipe: Pipe

    constructor (id: int, p: Pipe)
      ensures nodeID == id && rxpipe == p
    {
      nodeID, rxpipe := id, p;
    }
  }

  class Network {
    var nodesByID: map<int, Node>
    var nextNodeID: int
    const table: RoutingTable

    // Every node ever made, open or closed, what its pipe holds, and every write.
    ghost var all: map<int, Node>
    ghost var pipes: map<int, S.Pipe>
    ghost var writes: seq<S.Write>

    ghost function Pipes(): set<Pipe>
      reads this
    {
      set id | id in all :: all[id].rxpipe
    }

    ghost predicate Valid()
      reads this, Pipes()
    {
      && (forall id | id in all :: all[id].nodeID == all[id].rxpipe.reader == id < nextNodeID)
      && nodesByID.Keys <= all.Keys == pipes.Keys
      && (forall id | id in nodesByID :: nodesByID[id] == all[id])
      && (forall id | id in all :: all[id].rxpipe.Valid() && all[id].rxpipe.Model() == pipes[id])
    }

    ghost function Model(): S.Net
      reads this, table
    {
      S.Net(pipes, nodesByID.Keys, nextNodeID, table.Model(), writes)
    }

    constructor ()
      ensures Valid() && Model() == S.EMPTY && fresh(table) && all == map[]
    {
      nodesByID, nextNodeID, all, pipes, writes := map[], 0, map[], map[], [];
      table := new RoutingTable();
    }

    method NewNode() returns (node: Node)
      requires Valid()
      modifies this, table
      ensures Valid() && fresh(node) && fresh(node.rxpipe) && all == old(all)[node.nodeID := node]
      ensures Model() == S.NewNode(old(Model()))
    {
      node := AddNode();
      table.AddPort(node.nodeID);
    }

    method AddNode() returns (node: Node)
      requires Valid()
      modifies this
      ensures Valid() && fresh(node) && fresh(node.rxpipe) && all == old(all)[node.nodeID := node]
      ensures node.nodeID == old(nextNodeID) == nextNodeID - 1 && writes == old(writes)
      ensures nodesByID.Keys == old(nodesByID.Keys) + {node.nodeID} && pipes == old(pipes)[node.nodeID := S.NEW_PIPE]
    {
      var rxpipe := new Pipe(nextNodeID);
      node := new Node(nextNodeID, rxpipe);
      nextNodeID := nextNodeID + 1;
      nodesByID := nodesByID[node.nodeID := node];
      all, pipes := all[node.nodeID := node], pipes[node.nodeID := S.NEW_PIPE];
    }

    method Close(node: Node)
      requires Valid() && node.nodeID in all && all[node.nodeID] == node
      modifies this, table, node.rxpipe
      ensures Valid() && all == old(all) && Model() == S.Close(old(Model()), node.nodeID)
    {
      hide R.DeletePort, S.ClosePipe;
      table.DeletePort(node.nodeID);
      RemoveNode(node.nodeID);
      CloseReader(node);
    }

    method RemoveNode(id: int)
      requires Valid()
      modifies this`nodesByID
      ensures Valid() && nodesByID.Keys == old(nodesByID.Keys) - {id}
    {
      nodesByID := nodesByID - {id};
    }

    method CloseReader(node: Node)
      requires Valid() && node.nodeID in all && all[node.nodeID] == node
      modifies this`pipes, node.rxpipe
      ensures Valid() && pipes == old(pipes)[node.nodeID := S.ClosePipe(old(pipes)[node.nodeID])]
    {
      node.rxpipe.Close();
      pipes := pipes[node.nodeID := S.ClosePipe(pipes[node.nodeID])];
    }

    method ReadPacket(node: Node) returns (pkt: Option<Packet>, err: Option<S.PipeError>)
      requires Valid() && node.nodeID in all && all[node.nodeID] == node
      modifies this`pipes, node.rxpipe
      ensures Valid() && Model() == S.Read(old(Model()), node.nodeID).0
      ensures err == S.ReadError(old(Model()).pipes[node.nodeID])
      ensures var x := S.Read(old(Model()), node.nodeID).1; pkt == if x.Some? then Some(x.value.packet) else None
    {
      pkt, err := node.rxpipe.ReadPacket();
      pipes := pipes[node.nodeID := S.Take(pipes[node.nodeID]).0];
    }

    /** One write into the pipe of an open node. */
    method Deliver(packet: Packet, id: int, ghost write: nat) returns (err: Option<S.PipeError>)
      requires Valid() && id in nodesByID
      modifies this`pipes, nodesByID[id].rxpipe
      ensures Valid() && id in old(pipes)
      ensures pipes == S.Offer(old(pipes), {id}, S.Item(write, packet))
      ensures err == S.Put(old(pipes)[id], S.Item(write, packet)).1
    {
      err := nodesByID[id].rxpipe.WritePacket(packet, write);
      pipes := S.Offer(pipes, {id}, S.Item(write, packet));
    }

    lemma HasPipe(id: int)
      requires Valid() && id in nodesByID
      ensures id in pipes && nodesByID[id].rxpipe in Pipes()
    {
    }

    /** Offers a packet to every open node but the writer, in any order. */
    method BroadcastPacket(packet: Packet, src: Node, ghost write: nat) returns (failed: bool)
      requires Valid()
      modifies this`pipes, Pipes()
      ensures Valid()
      ensures pipes == S.Offer(old(pipes), nodesByID.Keys - {src.nodeID}, S.Item(write, packet))
      ensures failed <==> S.Refused(old(pipes), nodesByID.Keys - {src.nodeID}, S.Item(write, packet))
    {
      hide Valid, S.Put, S.Offer, S.Refused;
      failed := false;
      ghost var others := nodesByID.Keys - {src.nodeID};
      var todo: set<int> := nodesByID.Keys - {src.nodeID};
      assert others - todo == {};
      S.OfferNone(pipes, S.Item(write, packet));
      while todo != {}
        invariant Valid() && todo <= others
        invariant pipes == S.Offer(old(pipes), others - todo, S.Item(write, packet))
        invariant failed <==> S.Refused(old(pipes), others - todo, S.Item(write, packet))
      {
        EmptyOrNot(todo);
        var id: int :| id in todo;
        HasPipe(id);
        S.OfferOneMore(old(pipes), others - todo, id, S.Item(write, packet));
        assert others - (todo - {id}) == others - todo + {id};
        todo := todo - {id};
        var err := Deliver(packet, id, write);
        if err.Some? {
          failed := true;
        }
      }
      assert others - todo == others;
    }

    method ForwardPacket(packet: Packet, src: Node, ghost write: nat) returns (failed: bool)
      requires Valid()
      modifies this`pipes, Pipes()
      ensures Valid()
      ensures var to := S.Targets(nodesByID.Keys, src.nodeID, R.LookupDest(table.Model(), packet.header.dest));
              && pipes == S.Offer(old(pipes), to, S.Item(write, packet))
              && (failed <==> S.Refused(old(pipes), to, S.Item(write, packet)))
    {
      hide Valid, S.Put, S.Offer, S.Refused, R.LookupDest;
      failed := false;
      S.OfferNone(pipes, S.Item(write, packet));
      var destNodeID := table.LookupDest(packet.header.dest);
      if destNodeID == R.BROADCAST_DEST {
        failed := BroadcastPacket(packet, src, write);
      } else if destNodeID in nodesByID && destNodeID != src.nodeID {
        assert S.Targets(nodesByID.Keys, src.nodeID, destNodeID) == {destNodeID} == {} + {destNodeID};
        HasPipe(destNodeID);
        S.OfferOneMore(pipes, {}, destNodeID, S.Item(write, packet));
        var err := Deliver(packet, destNodeID, write);
        failed := err.Some?;
      } else {
        assert S.Targets(nodesByID.Keys, src.nodeID, destNodeID) == {};
      }
    }

    method WritePacket(node: Node, packet: Packet, now: int) returns (failed: bool)
      requires Valid() && node.nodeID in all && all[node.nodeID] == node
      modifies this, table, Pipes()
      ensures Valid() && all == old(all)
      ensures Model() == S.WritePacket(old(Model()), node.nodeID, packet, now)
      ensures failed <==> S.WriteFails(old(Model()), node.nodeID, packet, now)
    {
      hide S.Offer, S.Refused, S.Targets, R.Record, R.LookupDest;
      table.Record(node.nodeID, packet.header.src, now);
      ghost var dest := R.LookupDest(table.Model(), packet.header.dest);
      failed := ForwardPacket(packet, node, |writes|);
      writes := writes + [S.Write(node.nodeID, packet, dest)];
    }
  }
}
