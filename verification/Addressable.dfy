/** The addressable network: every port of the switch is given an address of its own, may only
    send from it, and reads only what is sent to it. */
module Addressable {
  import opened Bytes
  import opened Ipx
  import R = Routing
  import S = Switch

  /** Addresses are remembered for closed nodes too; nodesByIPX holds the ones in use. */
  datatype Net = Net(inner: S.Net, addrs: map<int, Addr>, nodesByIPX: map<Addr, int>, delivered: map<int, seq<S.Item>>)

  const EMPTY := Net(S.EMPTY, map[], map[], map[])

  /** A unicast, locally administered address. */
  predicate Local(a: Addr) { a[0] == 0x02 }

  function NewNode(n: Net, a: Addr): Net
  {
    var id := n.inner.nextNodeID;
    Net(S.NewNode(n.inner), n.addrs[id := a], n.nodesByIPX[a := id], n.delivered[id := []])
  }

  lemma NewNodeShape(n: Net, a: Addr)
    requires Shape(n)
    ensures Shape(NewNode(n, a))
  {
  }

  predicate MeantFor(p: Packet, a: Addr)
  {
    p.header.dest.network == ZERO_NETWORK && (p.header.dest.addr == a || p.header.dest.addr == ADDR_BROADCAST)
  }

  /** The maps speak of the same nodes. */
  ghost predicate Shape(n: Net)
  {
    n.addrs.Keys == n.inner.pipes.Keys == n.delivered.Keys && n.inner.nodes <= n.inner.pipes.Keys
  }

  /** Reads until a packet meant for this node turns up. */
  function ReadPacket(n: Net, id: int): (r: Net)
    requires Shape(n) && id in n.inner.pipes
    ensures Shape(r) && r.inner.pipes.Keys == n.inner.pipes.Keys
    decreases if id in n.inner.pipes then |n.inner.pipes[id].buffer| else 0
  {
    var (inner, x) := S.Read(n.inner, id);
    if x.None? then n.(inner := inner)
    else if MeantFor(x.value.packet, n.addrs[id])
    then n.(inner := inner, delivered := n.delivered[id := n.delivered[id] + [x.value]])
    else ReadPacket(n.(inner := inner), id)
  }

  /** The first packet waiting in an open pipe that is meant for the address. */
  function NextFor(p: S.Pipe, a: Addr): Option<S.Item> { if p.closed then None else FirstFor(p.buffer, a) }

  function FirstFor(items: seq<S.Item>, a: Addr): (x: Option<S.Item>)
    ensures x.Some? <==> exists i | 0 <= i < |items| :: MeantFor(items[i].packet, a)
    ensures x.Some? ==> MeantFor(x.value.packet, a) && x.value in items
  {
    if items == [] then None
    else if MeantFor(items[0].packet, a) then Some(items[0])
    else FirstFor(items[1..], a)
  }

  /** A read delivers that packet and nothing else. */
  lemma {:induction false} ReadDelivers(n: Net, id: int)
    requires Shape(n) && id in n.inner.pipes
    ensures var x := NextFor(n.inner.pipes[id], n.addrs[id]);
            ReadPacket(n, id).delivered == if x.Some? then n.delivered[id := n.delivered[id] + [x.value]] else n.delivered
    decreases if id in n.inner.pipes then |n.inner.pipes[id].buffer| else 0
  {
    var (inner, x) := S.Read(n.inner, id);
    if x.Some? && !MeantFor(x.value.packet, n.addrs[id]) { ReadDelivers(n.(inner := inner), id); }
  }

  /** One turn of the loop. */
  lemma ReadOnce(n: Net, id: int)
    requires Shape(n) && id in n.inner.pipes
    ensures var (inner, x) := S.Read(n.inner, id);
            var n', next := n.(inner := inner), NextFor(n.inner.pipes[id], n.addrs[id]);
            && Shape(n') && id in inner.pipes
            && (x.None? ==> ReadPacket(n, id) == n' && next == None)
            && (x.Some? && MeantFor(x.value.packet, n.addrs[id]) ==>
                  ReadPacket(n, id) == n'.(delivered := n.delivered[id := n.delivered[id] + [x.value]]) && next == x)
            && (x.Some? && !MeantFor(x.value.packet, n.addrs[id]) ==>
                  && ReadPacket(n, id) == ReadPacket(n', id) && next == NextFor(inner.pipes[id], n.addrs[id])
                  && |inner.pipes[id].buffer| < |n.inner.pipes[id].buffer|)
  {
  }

  function WritePacket(n: Net, id: int, p: Packet, now: int): Net
    requires id in n.addrs
  {
    if p.header.src.network != ZERO_NETWORK || p.header.src.addr != n.addrs[id] then n
    else n.(inner := S.WritePacket(n.inner, id, p, now))
  }

  function Close(n: Net, id: int): Net
    requires id in n.inner.pipes && id in n.addrs
  {
    n.(inner := S.Close(n.inner, id), nodesByIPX := n.nodesByIPX - {n.addrs[id]})
  }

  datatype Event =
    | Opened(addr: Addr)
    | Closed(id: int)
    | Reads(id: int)
    | Writes(id: int, packet: Packet, now: int)

  /** New addresses are unused ones; nodes are closed once and do not write after that. */
  predicate Proper(n: Net, e: Event)
  {
    match e
    case Opened(a) => Local(a) && a !in n.nodesByIPX
    case Closed(id) => id in n.inner.nodes
    case Reads(id) => id in n.inner.pipes
    case Writes(id, _, _) => id in n.inner.nodes
  }

  function Step(n: Net, e: Event): (n': Net)
    requires Shape(n) && Proper(n, e)
    ensures Shape(n')
  {
    match e
    case Opened(a) => NewNode(n, a)
    case Closed(id) => Close(n, id)
    case Reads(id) => ReadPacket(n, id)
    case Writes(id, packet, now) => WritePacket(n, id, packet, now)
  }

  ghost predicate ProperRun(es: seq<Event>)
    decreases |es|, 0
  {
    es == [] || (ProperRun(es[..|es| - 1]) && Proper(Run(es[..|es| - 1]), es[|es| - 1]))
  }

  ghost function Run(es: seq<Event>): (n: Net)
    requires ProperRun(es)
    ensures Shape(n)
    decreases |es|, 1
  {
    if es == [] then EMPTY else Step(Run(es[..|es| - 1]), es[|es| - 1])
  }

  // ---------------------------------------------------------------- what every step keeps

  /** The addresses in use are those of the open nodes, and lead back to them. */
  ghost predicate AddrsOk(n: Net)
    requires Shape(n)
  {
    && (forall id | id in n.addrs :: Local(n.addrs[id]))
    && (forall id | id in n.inner.nodes :: n.addrs[id] in n.nodesByIPX && n.nodesByIPX[n.addrs[id]] == id)
    && (forall a | a in n.nodesByIPX :: n.nodesByIPX[a] in n.inner.nodes && n.addrs[n.nodesByIPX[a]] == a)
  }

  /** Every route is for the address of an open node, and points at that node. */
  ghost predicate RoutesOk(n: Net)
    requires Shape(n)
  {
    && R.Indexed(n.inner.table)
    && forall k | k in n.inner.table.addrs ::
         var p := n.inner.table.addrs[k].port;
         p in n.inner.nodes && k == HeaderAddr(ZERO_NETWORK, n.addrs[p], 0)
  }

  /** The node's pipe took in the given write. */
  ghost predicate Took(accepted: seq<S.Item>, write: nat)
  {
    exists i :: 0 <= i < |accepted| && accepted[i].write == write
  }

  /** Nodes that took in the same write have different addresses. */
  ghost predicate Apart(n: Net)
    requires Shape(n)
  {
    forall id, id', w | id in n.inner.pipes && id' in n.inner.pipes && id != id'
        && Took(n.inner.pipes[id].accepted, w) && Took(n.inner.pipes[id'].accepted, w) ::
      n.addrs[id] != n.addrs[id']
  }

  /** What a node was given came through its pipe and was meant for it. */
  ghost predicate Genuine(x: S.Item, accepted: seq<S.Item>, a: Addr)
  {
    x in accepted && MeantFor(x.packet, a)
  }

  ghost predicate DeliveredOk(n: Net)
    requires Shape(n)
  {
    forall id, i | id in n.delivered && 0 <= i < |n.delivered[id]| ::
      Genuine(n.delivered[id][i], n.inner.pipes[id].accepted, n.addrs[id])
  }

  ghost predicate Inv(n: Net)
  {
    Shape(n) && S.NetOk(n.inner) && AddrsOk(n) && RoutesOk(n) && Apart(n) && DeliveredOk(n)
  }

  /** What the pipes took in decides the rest. */
  lemma AcceptedDecides(n: Net, n': Net)
    requires Shape(n) && Shape(n') && n'.addrs == n.addrs && n'.delivered == n.delivered
    requires forall k | k in n.inner.pipes :: n'.inner.pipes[k].accepted == n.inner.pipes[k].accepted
    requires Apart(n) && DeliveredOk(n)
    ensures Apart(n') && DeliveredOk(n')
  {
  }

  lemma OpenKeepsAddrs(n: Net, a: Addr)
    requires Shape(n) && n.inner.nextNodeID !in n.inner.pipes && Local(a) && a !in n.nodesByIPX && AddrsOk(n)
    ensures AddrsOk(NewNode(n, a))
  {
  }

  lemma OpenKeepsRoutes(n: Net, a: Addr)
    requires Shape(n) && n.inner.nextNodeID !in n.inner.pipes && n.inner.nextNodeID !in n.inner.table.ports
    requires RoutesOk(n)
    ensures RoutesOk(NewNode(n, a))
  {
    R.StepKeepsIndexed(n.inner.table, R.Added(n.inner.nextNodeID));
  }

  lemma OpenKeepsApart(n: Net, a: Addr)
    requires Shape(n) && n.inner.nextNodeID !in n.inner.pipes && Apart(n)
    ensures Apart(NewNode(n, a))
  {
    assert forall w :: !Took(S.NEW_PIPE.accepted, w);
  }

  lemma OpenKeepsDelivered(n: Net, a: Addr)
    requires Shape(n) && n.inner.nextNodeID !in n.inner.pipes && DeliveredOk(n)
    ensures DeliveredOk(NewNode(n, a))
  {
  }

  lemma OpenKeeps(n: Net, a: Addr)
    requires Inv(n) && Local(a) && a !in n.nodesByIPX
    ensures Inv(NewNode(n, a))
  {
    hide AddrsOk, RoutesOk, Apart, DeliveredOk;
    S.StepKeeps(n.inner, S.Opened);
    OpenKeepsAddrs(n, a);
    OpenKeepsRoutes(n, a);
    OpenKeepsApart(n, a);
    OpenKeepsDelivered(n, a);
  }

  lemma CloseKeepsRoutes(n: Net, id: int)
    requires Shape(n) && id in n.inner.nodes && RoutesOk(n)
    ensures RoutesOk(Close(n, id))
  {
    R.StepKeepsIndexed(n.inner.table, R.Deleted(id));
  }

  lemma CloseKeepsAddrs(n: Net, id: int)
    requires Shape(n) && id in n.inner.nodes && AddrsOk(n)
    ensures AddrsOk(Close(n, id))
  {
  }

  lemma CloseKeeps(n: Net, id: int)
    requires Inv(n) && id in n.inner.nodes
    ensures Inv(Close(n, id))
  {
    hide AddrsOk, RoutesOk, Apart, DeliveredOk, S.NetOk;
    S.StepKeeps(n.inner, S.Closed(id));
    CloseKeepsRoutes(n, id);
    CloseKeepsAddrs(n, id);
    AcceptedDecides(n, Close(n, id));
  }

  /** A write is taken in only by open nodes. */
  lemma TookAfterWrite(n: S.Net, from: int, p: Packet, now: int, id: int, w: nat)
    requires S.NetOk(n) && id in n.pipes && Took(S.WritePacket(n, from, p, now).pipes[id].accepted, w)
    ensures if w < |n.writes| then Took(n.pipes[id].accepted, w) else w == |n.writes| && id in n.nodes
  {
    var acc, acc' := n.pipes[id].accepted, S.WritePacket(n, from, p, now).pipes[id].accepted;
    var i :| 0 <= i < |acc'| && acc'[i].write == w;
    if i < |acc| { assert S.ItemOk(n, id, acc[i]); }
  }

  lemma WriteKeepsApart(n: Net, from: int, p: Packet, now: int)
    requires Inv(n) && from in n.inner.nodes
    ensures Shape(n.(inner := S.WritePacket(n.inner, from, p, now)))
    ensures Apart(n.(inner := S.WritePacket(n.inner, from, p, now)))
  {
    var inner := S.WritePacket(n.inner, from, p, now);
    forall id, id', w | id in inner.pipes && id' in inner.pipes && id != id'
                      && Took(inner.pipes[id].accepted, w) && Took(inner.pipes[id'].accepted, w)
      ensures n.addrs[id] != n.addrs[id']
    {
      TookAfterWrite(n.inner, from, p, now, id, w);
      TookAfterWrite(n.inner, from, p, now, id', w);
    }
  }

  lemma WriteKeepsRoutes(n: Net, id: int, p: Packet, now: int)
    requires Shape(n) && RoutesOk(n) && id in n.inner.nodes
    requires p.header.src.network == ZERO_NETWORK && p.header.src.addr == n.addrs[id]
    ensures Shape(n.(inner := S.WritePacket(n.inner, id, p, now)))
    ensures RoutesOk(n.(inner := S.WritePacket(n.inner, id, p, now)))
  {
    R.StepKeepsIndexed(n.inner.table, R.Recorded(id, p.header.src, now));
  }

  lemma WriteKeepsDelivered(n: Net, id: int, p: Packet, now: int)
    requires Shape(n) && DeliveredOk(n)
    ensures Shape(n.(inner := S.WritePacket(n.inner, id, p, now)))
    ensures DeliveredOk(n.(inner := S.WritePacket(n.inner, id, p, now)))
  {
    var inner := S.WritePacket(n.inner, id, p, now);
    assert forall k | k in n.inner.pipes :: n.inner.pipes[k].accepted <= inner.pipes[k].accepted;
    forall k, i | k in n.delivered && 0 <= i < |n.delivered[k]|
      ensures Genuine(n.delivered[k][i], inner.pipes[k].accepted, n.addrs[k])
    {
      assert Genuine(n.delivered[k][i], n.inner.pipes[k].accepted, n.addrs[k]);
    }
  }

  lemma WriteKeeps(n: Net, id: int, p: Packet, now: int)
    requires Inv(n) && id in n.inner.nodes
    ensures Inv(WritePacket(n, id, p, now))
  {
    hide R.Indexed, S.NetOk, DeliveredOk;
    if p.header.src.network == ZERO_NETWORK && p.header.src.addr == n.addrs[id] {
      S.StepKeeps(n.inner, S.Writes(id, p, now));
      WriteKeepsRoutes(n, id, p, now);
      WriteKeepsApart(n, id, p, now);
      WriteKeepsDelivered(n, id, p, now);
    }
  }

  /** One turn of the loop that reads. */
  lemma TurnKeeps(n: Net, id: int)
    requires Inv(n) && id in n.inner.pipes
    ensures Inv(n.(inner := S.Read(n.inner, id).0))
    ensures S.Read(n.inner, id).1.Some? ==> S.Read(n.inner, id).1.value in S.Read(n.inner, id).0.pipes[id].accepted
  {
    hide AddrsOk, RoutesOk, Apart, DeliveredOk;
    var n' := n.(inner := S.Read(n.inner, id).0);
    S.StepKeeps(n.inner, S.Reads(id));
    S.TakeKeeps(n.inner.pipes[id]);
    AcceptedDecides(n, n');
    SameRoutes(n, n');
  }

  lemma SameRoutes(n: Net, n': Net)
    requires Shape(n) && Shape(n') && n'.addrs == n.addrs && n'.nodesByIPX == n.nodesByIPX
    requires n'.inner.table == n.inner.table && n'.inner.nodes == n.inner.nodes
    ensures AddrsOk(n) ==> AddrsOk(n')
    ensures RoutesOk(n) ==> RoutesOk(n')
  {
  }

  lemma DeliverKeeps(n: Net, id: int, x: S.Item)
    requires Inv(n) && id in n.delivered && x in n.inner.pipes[id].accepted && MeantFor(x.packet, n.addrs[id])
    ensures Inv(n.(delivered := n.delivered[id := n.delivered[id] + [x]]))
  {
    hide S.NetOk, Took;
    var n' := n.(delivered := n.delivered[id := n.delivered[id] + [x]]);
    assert n'.delivered.Keys == n.delivered.Keys;
    SameRoutes(n, n');
    assert Genuine(x, n.inner.pipes[id].accepted, n.addrs[id]);
  }

  lemma {:induction false} ReadKeeps(n: Net, id: int)
    requires Inv(n) && id in n.inner.pipes
    ensures Inv(ReadPacket(n, id))
    decreases |n.inner.pipes[id].buffer|
  {
    hide S.NetOk, AddrsOk, RoutesOk, Apart, DeliveredOk;
    TurnKeeps(n, id);
    var (inner, x) := S.Read(n.inner, id);
    if x.Some? {
      if MeantFor(x.value.packet, n.addrs[id]) {
        DeliverKeeps(n.(inner := inner), id, x.value);
      } else {
        ReadKeeps(n.(inner := inner), id);
      }
    }
  }

  lemma {:induction false} RunInv(es: seq<Event>)
    requires ProperRun(es)
    ensures Inv(Run(es))
  {
    if es != [] {
      var n := Run(es[..|es| - 1]);
      RunInv(es[..|es| - 1]);
      match es[|es| - 1] {
        case Opened(a) => OpenKeeps(n, a);
        case Closed(id) => CloseKeeps(n, id);
        case Reads(id) => ReadKeeps(n, id);
        case Writes(id, packet, now) => WriteKeeps(n, id, packet, now);
      }
    }
  }

  /** Open nodes have distinct addresses. */
  lemma {:induction false} AddressesAreDistinct(es: seq<Event>, id: int, id': int)
    requires ProperRun(es) && id in Run(es).inner.nodes && id' in Run(es).inner.nodes && id != id'
    ensures Run(es).addrs[id] != Run(es).addrs[id']
  {
    RunInv(es);
  }

  /** Every address given out is unicast and locally administered: it begins with 02, so that it is
      neither the broadcast nor the null address. */
  lemma {:induction false} AddressesAreLocal(es: seq<Event>, id: int)
    requires ProperRun(es) && id in Run(es).addrs
    ensures Run(es).addrs[id][0] == 2
    ensures Run(es).addrs[id] != [0xff, 0xff, 0xff, 0xff, 0xff, 0xff] && Run(es).addrs[id] != [0, 0, 0, 0, 0, 0]
  {
    RunInv(es);
  }

  /** An address can be given out again exactly when the node that had it is closed. */
  lemma {:induction false} AddressesAreFreed(es: seq<Event>, a: Addr)
    requires ProperRun(es)
    ensures a in Run(es).nodesByIPX <==> exists id | id in Run(es).inner.nodes :: Run(es).addrs[id] == a
  {
    RunInv(es);
    var n := Run(es);
    if a in n.nodesByIPX {
      var id := n.nodesByIPX[a];
      assert id in n.inner.nodes && n.addrs[id] == a;
    }
  }

  /** A route learned for the address of an open node points at that node. */
  lemma {:induction false} RouteLeadsToOwner(es: seq<Event>, id: int, socket: u16)
    requires ProperRun(es) && id in Run(es).inner.nodes
    ensures R.LookupDest(Run(es).inner.table, HeaderAddr(ZERO_NETWORK, Run(es).addrs[id], socket)) in {id, R.BROADCAST_DEST}
  {
    RunInv(es);
  }

  /** A unicast packet is read by at most one node, whether it was flooded or switched. */
  lemma {:induction false} UnicastIsPrivate(es: seq<Event>, id: int, id': int, x: S.Item, x': S.Item)
    requires ProperRun(es) && id in Run(es).delivered && id' in Run(es).delivered
    requires x in Run(es).delivered[id] && x' in Run(es).delivered[id'] && x.write == x'.write
    requires x.packet.header.dest.addr != ADDR_BROADCAST
    ensures id == id'
  {
    RunInv(es);
    var n := Run(es).inner;
    assert Genuine(x, n.pipes[id].accepted, Run(es).addrs[id]) && Genuine(x', n.pipes[id'].accepted, Run(es).addrs[id']);
    var i :| 0 <= i < |n.pipes[id].accepted| && n.pipes[id].accepted[i] == x;
    var i' :| 0 <= i' < |n.pipes[id'].accepted| && n.pipes[id'].accepted[i'] == x';
    assert S.ItemOk(n, id, n.pipes[id].accepted[i]) && S.ItemOk(n, id', n.pipes[id'].accepted[i']);
    assert Took(n.pipes[id].accepted, x.write) && Took(n.pipes[id'].accepted, x.write);
  }

  // ---------------------------------------------------------------- nothing is lost on reading

  /** The packets for network zero that go to the address itself or to the broadcast address. */
  function Sifted(items: seq<S.Item>, a: Addr): seq<S.Item>
  {
    if items == [] then []
    else
      var x := items[|items| - 1];
      var dest := x.packet.header.dest;
      Sifted(items[..|items| - 1], a)
      + if dest.network == [0, 0, 0, 0] && (dest.addr == a || dest.addr == [0xff, 0xff, 0xff, 0xff, 0xff, 0xff])
        then [x] else []
  }

  lemma SiftedSnoc(items: seq<S.Item>, x: S.Item, a: Addr)
    ensures Sifted(items + [x], a) == if MeantFor(x.packet, a) then Sifted(items, a) + [x] else Sifted(items, a)
  {
    assert (items + [x])[..|items|] == items;
  }

  ghost predicate SiftedOk(n: Net, id: int)
    requires Shape(n) && id in n.inner.pipes
  {
    n.delivered[id] == Sifted(n.inner.pipes[id].taken, n.addrs[id])
  }

  lemma {:induction false} ReadKeepsSifted(n: Net, id: int, id': int)
    requires Shape(n) && id in n.inner.pipes && id' in n.inner.pipes && SiftedOk(n, id')
    ensures id' in ReadPacket(n, id).inner.pipes && SiftedOk(ReadPacket(n, id), id')
    decreases |n.inner.pipes[id].buffer|
  {
    hide Sifted, MeantFor;
    var (inner, x) := S.Read(n.inner, id);
    if x.Some? {
      SiftedSnoc(n.inner.pipes[id].taken, x.value, n.addrs[id]);
      if !MeantFor(x.value.packet, n.addrs[id]) { ReadKeepsSifted(n.(inner := inner), id, id'); }
    }
  }

  lemma StepKeepsSifted(n: Net, e: Event, id: int)
    requires Inv(n) && Proper(n, e) && id in Step(n, e).inner.pipes
    requires id in n.inner.pipes ==> SiftedOk(n, id)
    ensures SiftedOk(Step(n, e), id)
  {
    hide Sifted, ReadPacket, AddrsOk, RoutesOk, Apart, DeliveredOk;
    match e
    case Opened(_) => assert Sifted([], Step(n, e).addrs[id]) == [] by { SiftedNone(Step(n, e).addrs[id]); }
    case Closed(_) =>
    case Reads(r) => ReadKeepsSifted(n, r, id);
    case Writes(_, _, _) =>
  }

  lemma SiftedNone(a: Addr)
    ensures Sifted([], a) == []
  {
  }

  /** What a node has read is exactly what left its pipe, in order, without the packets for another
      network and those for an address that is neither its own nor the broadcast address. */
  lemma {:induction false} NothingIsLostOnReading(es: seq<Event>, id: int)
    requires ProperRun(es) && id in Run(es).inner.pipes
    ensures Run(es).delivered[id] == Sifted(Run(es).inner.pipes[id].taken, Run(es).addrs[id])
  {
    hide Step, Inv, Sifted;
    if es != [] {
      var before := es[..|es| - 1];
      RunInv(before);
      if id in Run(before).inner.pipes { NothingIsLostOnReading(before, id); }
      StepKeepsSifted(Run(before), es[|es| - 1], id);
    }
  }

  // ---------------------------------------------------------------- sources

  /** Every write so far names its writer's own address as the source. */
  ghost predicate SourcesOk(n: Net)
  {
    forall w | 0 <= w < |n.inner.writes| ::
      var write := n.inner.writes[w];
      write.from in n.addrs
      && write.packet.header.src.network == [0, 0, 0, 0] && write.packet.header.src.addr == n.addrs[write.from]
  }

  lemma {:induction false} ReadKeepsRest(n: Net, id: int)
    requires Shape(n) && id in n.inner.pipes
    ensures var n' := ReadPacket(n, id);
            && n'.addrs == n.addrs && n'.nodesByIPX == n.nodesByIPX && n'.inner.nodes == n.inner.nodes
            && n'.inner.writes == n.inner.writes && n'.inner.table == n.inner.table
            && n'.inner.pipes[id].accepted == n.inner.pipes[id].accepted
            && (n.inner.pipes[id].closed || n.inner.pipes[id].buffer == [] ==> n'.inner.pipes[id] == n.inner.pipes[id])
            && (!n.inner.pipes[id].closed && n.inner.pipes[id].buffer != [] ==>
                  |n'.inner.pipes[id].buffer| < |n.inner.pipes[id].buffer|)
    decreases |n.inner.pipes[id].buffer|
  {
    hide MeantFor;
    var (inner, x) := S.Read(n.inner, id);
    if x.Some? && !MeantFor(x.value.packet, n.addrs[id]) { ReadKeepsRest(n.(inner := inner), id); }
  }

  lemma StepKeepsSources(n: Net, e: Event)
    requires Inv(n) && Proper(n, e) && SourcesOk(n)
    ensures SourcesOk(Step(n, e))
  {
    hide ReadPacket, RoutesOk, Apart, DeliveredOk, AddrsOk, S.Offer, R.Record, R.LookupDest;
    match e
    case Opened(_) =>
    case Closed(_) =>
    case Reads(id) => ReadKeepsRest(n, id);
    case Writes(_, _, _) =>
  }

  lemma {:induction false} RunKeepsSources(es: seq<Event>)
    requires ProperRun(es)
    ensures SourcesOk(Run(es))
  {
    hide Step, SourcesOk, Inv;
    if es == [] {
      NoSources();
    } else {
      RunKeepsSources(es[..|es| - 1]);
      RunInv(es[..|es| - 1]);
      StepKeepsSources(Run(es[..|es| - 1]), es[|es| - 1]);
    }
  }

  lemma NoSources()
    ensures SourcesOk(EMPTY)
  {
  }

  /** Nobody can pose as another: every packet read by a node was written by a node whose address
      is the one the packet names as its source. */
  lemma {:induction false} SourcesAreTrue(es: seq<Event>, id: int, x: S.Item)
    requires ProperRun(es) && id in Run(es).delivered && x in Run(es).delivered[id]
    ensures x.write < |Run(es).inner.writes|
    ensures var write := Run(es).inner.writes[x.write];
            && write.packet == x.packet && write.from != id && write.from in Run(es).addrs
            && x.packet.header.src.network == [0, 0, 0, 0] && x.packet.header.src.addr == Run(es).addrs[write.from]
  {
    hide Run, RoutesOk, Apart, AddrsOk;
    RunInv(es);
    RunKeepsSources(es);
    var n := Run(es);
    var k :| 0 <= k < |n.delivered[id]| && n.delivered[id][k] == x;
    assert Genuine(n.delivered[id][k], n.inner.pipes[id].accepted, n.addrs[id]);
    var i :| 0 <= i < |n.inner.pipes[id].accepted| && n.inner.pipes[id].accepted[i] == x;
    assert S.ItemOk(n.inner, id, n.inner.pipes[id].accepted[i]);
  }
}
