/** The switch: numbered ports, each with a bounded pipe of packets to read, joined by a
    learning routing table. */
module Switch {
  import opened Bytes
  import opened Ipx
  import R = Routing

  const MAX_BUFFERED_PACKETS := 16

  // ---------------------------------------------------------------- pipes

  /** A packet in transit, tagged with the number of the write that sent it. */
  datatype Item = Item(write: nat, packet: Packet)

  /** The channel's buffer, and the history of what went in and came out. */
  datatype Pipe = Pipe(buffer: seq<Item>, closed: bool, accepted: seq<Item>, taken: seq<Item>)

  const NEW_PIPE := Pipe([], false, [], [])

  datatype PipeError = ClosedPipe | PipeFull

  function Put(p: Pipe, x: Item): (Pipe, Option<PipeError>)
  {
    if p.closed then (p, Some(ClosedPipe))
    else if |p.buffer| >= MAX_BUFFERED_PACKETS then (p, Some(PipeFull))
    else (p.(buffer := p.buffer + [x], accepted := p.accepted + [x]), None)
  }

  /** A read of an open, empty pipe waits: it has no result yet. */
  function Take(p: Pipe): (Pipe, Option<Item>)
  {
    if p.closed || p.buffer == [] then (p, None)
    else (p.(buffer := p.buffer[1..], taken := p.taken + [p.buffer[0]]), Some(p.buffer[0]))
  }

  /** What a read without a result reports: an error once the pipe is closed, else nothing yet. */
  function ReadError(p: Pipe): Option<PipeError> { if p.closed then Some(ClosedPipe) else None }

  function ClosePipe(p: Pipe): Pipe { p.(closed := true) }

  // ---------------------------------------------------------------- the network

  datatype Write = Write(from: int, packet: Packet, dest: int)

  /** Pipes are kept for closed nodes too; nodes holds the ones in nodesByID. */
  datatype Net = Net(pipes: map<int, Pipe>, nodes: set<int>, nextNodeID: int, table: R.Table, writes: seq<Write>)

  const EMPTY := Net(map[], {}, 0, R.EMPTY, [])

  function NewNode(n: Net): Net
  {
    Net(n.pipes[n.nextNodeID := NEW_PIPE], n.nodes + {n.nextNodeID}, n.nextNodeID + 1,
        R.AddPort(n.table, n.nextNodeID), n.writes)
  }

  function Close(n: Net, id: int): Net
    requires id in n.pipes
  {
    n.(pipes := n.pipes[id := ClosePipe(n.pipes[id])], nodes := n.nodes - {id}, table := R.DeletePort(n.table, id))
  }

  function Read(n: Net, id: int): (Net, Option<Item>)
    requires id in n.pipes
  {
    (n.(pipes := n.pipes[id := Take(n.pipes[id]).0]), Take(n.pipes[id]).1)
  }

  /** The nodes a packet is offered to. */
  function Targets(nodes: set<int>, from: int, dest: int): set<int>
  {
    if dest == R.BROADCAST_DEST then nodes - {from} else nodes * {dest} - {from}
  }

  function Offer(pipes: map<int, Pipe>, to: set<int>, x: Item): (pipes': map<int, Pipe>)
    ensures pipes'.Keys == pipes.Keys
  {
    map k | k in pipes :: if k in to then Put(pipes[k], x).0 else pipes[k]
  }

  /** One of the nodes refuses the packet. */
  predicate Refused(pipes: map<int, Pipe>, to: set<int>, x: Item)
  {
    exists k | k in to :: k in pipes && Put(pipes[k], x).1.Some?
  }

  /** A write reports an error if a node that it is offered to refuses it. */
  predicate WriteFails(n: Net, from: int, packet: Packet, now: int)
  {
    var dest := R.LookupDest(R.Record(n.table, from, packet.header.src, now), packet.header.dest);
    Refused(n.pipes, Targets(n.nodes, from, dest), Item(|n.writes|, packet))
  }

  function WritePacket(n: Net, from: int, packet: Packet, now: int): Net
  {
    var table := R.Record(n.table, from, packet.header.src, now);
    var dest := R.LookupDest(table, packet.header.dest);
    n.(table := table,
       pipes := Offer(n.pipes, Targets(n.nodes, from, dest), Item(|n.writes|, packet)),
       writes := n.writes + [Write(from, packet, dest)])
  }

  datatype Event =
    | Opened
    | Closed(id: int)
    | Reads(id: int)
    | Writes(id: int, packet: Packet, now: int)

  /** Only nodes that exist are used. */
  predicate Possible(n: Net, e: Event)
  {
    match e
    case Opened => true
    case Closed(id) => id in n.pipes
    case Reads(id) => id in n.pipes
    case Writes(id, _, _) => id in n.pipes
  }

  function Step(n: Net, e: Event): Net
    requires Possible(n, e)
  {
    match e
    case Opened => NewNode(n)
    case Closed(id) => Close(n, id)
    case Reads(id) => Read(n, id).0
    case Writes(id, packet, now) => WritePacket(n, id, packet, now)
  }

  predicate PossibleRun(es: seq<Event>)
    decreases |es|, 0
  {
    es == [] || (PossibleRun(es[..|es| - 1]) && Possible(Run(es[..|es| - 1]), es[|es| - 1]))
  }

  function Run(es: seq<Event>): Net
    requires PossibleRun(es)
    decreases |es|, 1
  {
    if es == [] then EMPTY else Step(Run(es[..|es| - 1]), es[|es| - 1])
  }

  /** Offering a packet to one node after another, as a broadcast does. */
  lemma OfferNone(pipes: map<int, Pipe>, x: Item)
    ensures Offer(pipes, {}, x) == pipes && !Refused(pipes, {}, x)
  {
  }

  lemma OfferOneMore(pipes: map<int, Pipe>, to: set<int>, id: int, x: Item)
    requires id in pipes && id !in to
    ensures id in Offer(pipes, to, x) && Offer(pipes, to, x)[id] == pipes[id]
    ensures Offer(Offer(pipes, to, x), {id}, x) == Offer(pipes, to + {id}, x)
    ensures Refused(pipes, to + {id}, x) <==> Refused(pipes, to, x) || Put(pipes[id], x).1.Some?
  {
  }

  // ---------------------------------------------------------------- delivery

  /** What a pipe has taken in was written by another node and meant for this one. */
  ghost predicate ItemOk(n: Net, id: int, x: Item)
  {
    && x.write < |n.writes|
    && n.writes[x.write].packet == x.packet
    && n.writes[x.write].from != id
    && (n.writes[x.write].dest == R.BROADCAST_DEST || n.writes[x.write].dest == id)
  }

  /** First in, first out, with a bounded buffer; nothing is taken in twice. */
  ghost predicate PipeOk(p: Pipe)
  {
    && p.accepted == p.taken + p.buffer
    && |p.buffer| <= MAX_BUFFERED_PACKETS
    && forall i, j | 0 <= i < j < |p.accepted| :: p.accepted[i].write < p.accepted[j].write
  }

  ghost predicate NetOk(n: Net)
  {
    && 0 <= n.nextNodeID
    && n.nodes <= n.pipes.Keys
    && n.table.ports.Keys == n.pipes.Keys
    && forall id | id in n.pipes ::
         && 0 <= id < n.nextNodeID
         && PipeOk(n.pipes[id])
         && (id in n.nodes <==> !n.pipes[id].closed)
         && forall i | 0 <= i < |n.pipes[id].accepted| :: ItemOk(n, id, n.pipes[id].accepted[i])
  }

  lemma PutKeeps(p: Pipe, x: Item)
    requires PipeOk(p) && (p.accepted != [] ==> p.accepted[|p.accepted| - 1].write < x.write)
    ensures PipeOk(Put(p, x).0)
  {
    assert p.taken + p.buffer + [x] == p.taken + (p.buffer + [x]);
  }

  /** A read gives the oldest packet of an open pipe that has one. */
  lemma TakeGivesOldest(p: Pipe)
    requires PipeOk(p)
    ensures var n := |p.taken|;
            if p.closed || n == |p.accepted| then Take(p) == (p, None)
            else Take(p).1 == Some(p.accepted[n]) && Take(p).0.taken == p.accepted[..n + 1]
  {
  }

  lemma TakeKeeps(p: Pipe)
    requires PipeOk(p)
    ensures PipeOk(Take(p).0) && Take(p).0.accepted == p.accepted
  {
    if p.buffer != [] {
      assert p.taken + p.buffer == p.taken + [p.buffer[0]] + p.buffer[1..];
    }
  }

  lemma OfferKeeps(n: Net, to: set<int>, from: int, packet: Packet, dest: int)
    requires NetOk(n) && to == Targets(n.nodes, from, dest)
    ensures NetOk(n.(pipes := Offer(n.pipes, to, Item(|n.writes|, packet)),
                     writes := n.writes + [Write(from, packet, dest)]))
  {
    var x := Item(|n.writes|, packet);
    forall id | id in n.pipes ensures PipeOk(Offer(n.pipes, to, x)[id]) {
      var p := n.pipes[id];
      if p.accepted != [] { assert ItemOk(n, id, p.accepted[|p.accepted| - 1]); }
      PutKeeps(p, x);
    }
  }

  lemma RecordKeepsPorts(t: R.Table, port: int, src: HeaderAddr, now: int)
    ensures R.Record(t, port, src, now).ports.Keys == t.ports.Keys
  {
    var key := R.MakeKey(src);
    if port in t.ports { assert t.ports[port := t.ports[port] + {key}].Keys == t.ports.Keys; }
  }

  lemma OpenKeeps(n: Net)
    requires NetOk(n)
    ensures NetOk(NewNode(n))
  {
    assert NewNode(n).table.ports.Keys == NewNode(n).pipes.Keys;
  }

  /** Changing one pipe without changing what it took in. */
  lemma PipeKeeps(n: Net, id: int, p: Pipe)
    requires NetOk(n) && id in n.pipes && PipeOk(p) && p.accepted == n.pipes[id].accepted
    requires id in n.nodes <==> !p.closed
    ensures NetOk(n.(pipes := n.pipes[id := p]))
  {
    assert n.pipes[id := p].Keys == n.pipes.Keys;
  }

  lemma ClosedKeeps(n: Net, id: int, p: Pipe)
    requires NetOk(n) && id in n.pipes && PipeOk(p) && p.accepted == n.pipes[id].accepted && p.closed
    ensures NetOk(n.(pipes := n.pipes[id := p], nodes := n.nodes - {id}))
  {
    assert n.pipes[id := p].Keys == n.pipes.Keys;
  }

  lemma CloseKeeps(n: Net, id: int)
    requires NetOk(n) && id in n.pipes
    ensures NetOk(Close(n, id))
  {
    ClosedKeeps(n, id, ClosePipe(n.pipes[id]));
  }

  lemma WriteKeeps(n: Net, id: int, packet: Packet, now: int)
    requires NetOk(n) && id in n.pipes
    ensures NetOk(WritePacket(n, id, packet, now))
  {
    hide R.Record, R.LookupDest;
    var table := R.Record(n.table, id, packet.header.src, now);
    RecordKeepsPorts(n.table, id, packet.header.src, now);
    var dest := R.LookupDest(table, packet.header.dest);
    OfferKeeps(n.(table := table), Targets(n.nodes, id, dest), id, packet, dest);
  }

  lemma StepKeeps(n: Net, e: Event)
    requires NetOk(n) && Possible(n, e)
    ensures NetOk(Step(n, e))
  {
    hide NetOk;
    match e
    case Opened => OpenKeeps(n);
    case Closed(id) => CloseKeeps(n, id);
    case Reads(id) => ReadKeeps(n, id);
    case Writes(id, packet, now) => WriteKeeps(n, id, packet, now);
  }

  lemma ReadKeeps(n: Net, id: int)
    requires NetOk(n) && id in n.pipes
    ensures NetOk(Read(n, id).0)
  {
    TakeKeeps(n.pipes[id]);
    PipeKeeps(n, id, Take(n.pipes[id]).0);
  }

  lemma {:induction false} RunOk(es: seq<Event>)
    requires PossibleRun(es)
    ensures NetOk(Run(es))
  {
    if es != [] {
      RunOk(es[..|es| - 1]);
      StepKeeps(Run(es[..|es| - 1]), es[|es| - 1]);
    }
  }

  /** Delivery over whole runs: a node reads, in order, a prefix of what its pipe took in and
      leaves at most 16 packets behind; it never reads its own writes, no write reaches it
      twice, and a write that was switched reaches only the port it was switched to. */
  lemma {:induction false} DeliveryIsSound(es: seq<Event>, id: int)
    requires PossibleRun(es) && id in Run(es).pipes
    ensures var p := Run(es).pipes[id];
            && p.taken <= p.accepted && |p.accepted| - |p.taken| <= MAX_BUFFERED_PACKETS
            && (forall i, j | 0 <= i < j < |p.accepted| :: p.accepted[i].write < p.accepted[j].write)
            && forall i | 0 <= i < |p.accepted| ::
                 var w := p.accepted[i].write;
                 && w < |Run(es).writes| && Run(es).writes[w].packet == p.accepted[i].packet
                 && Run(es).writes[w].from != id
                 && (Run(es).writes[w].dest == R.BROADCAST_DEST || Run(es).writes[w].dest == id)
  {
    RunOk(es);
    assert forall i | 0 <= i < |Run(es).pipes[id].accepted| :: ItemOk(Run(es), id, Run(es).pipes[id].accepted[i]);
  }

  /** A closed node reads nothing, and nothing enters its pipe any more. */
  lemma {:induction false} ClosedNodesAreSilent(es: seq<Event>, id: int, from: int, packet: Packet, now: int)
    requires PossibleRun(es) && id in Run(es).pipes && id !in Run(es).nodes && from in Run(es).pipes
    ensures Read(Run(es), id) == (Run(es), None)
    ensures WritePacket(Run(es), from, packet, now).pipes[id] == Run(es).pipes[id]
  {
    RunOk(es);
    assert Run(es).pipes[id := Run(es).pipes[id]] == Run(es).pipes;
  }

  function Opens(es: seq<Event>): nat
  {
    if es == [] then 0 else Opens(es[..|es| - 1]) + if es[|es| - 1].Opened? then 1 else 0
  }

  /** Nodes are numbered from zero in the order they are opened, and keep their numbers. */
  lemma {:induction false} NodesAreNumbered(es: seq<Event>, id: int)
    requires PossibleRun(es)
    ensures Run(es).nextNodeID == Opens(es)
    ensures id in Run(es).pipes <==> 0 <= id < Opens(es)
  {
    if es != [] { NodesAreNumbered(es[..|es| - 1], id); }
  }

  // ---------------------------------------------------------------- routes are learned

  /** What the routing table sees of a run. */
  function TableEvents(es: seq<Event>): seq<R.Event>
    requires PossibleRun(es)
  {
    if es == [] then []
    else
      var before := es[..|es| - 1];
      match es[|es| - 1]
      case Opened => TableEvents(before) + [R.Added(Run(before).nextNodeID)]
      case Closed(id) => TableEvents(before) + [R.Deleted(id)]
      case Reads(_) => TableEvents(before)
      case Writes(id, packet, now) => TableEvents(before) + [R.Recorded(id, packet.header.src, now)]
  }

  lemma {:induction false} TableIsRun(es: seq<Event>)
    requires PossibleRun(es)
    ensures R.FreshPorts(TableEvents(es)) && Run(es).table == R.Run(TableEvents(es))
  {
    if es != [] {
      var before := es[..|es| - 1];
      TableIsRun(before);
      RunOk(before);
      R.RunAgrees(TableEvents(before));
      match es[|es| - 1] {
        case Opened => R.Snoc(TableEvents(before), R.Added(Run(before).nextNodeID));
        case Closed(id) => R.Snoc(TableEvents(before), R.Deleted(id));
        case Reads(_) =>
        case Writes(id, packet, now) => R.Snoc(TableEvents(before), R.Recorded(id, packet.header.src, now));
      }
    }
  }

  /** Where a packet belongs after a run: the port its destination was last heard on, if that
      is known and it is not a broadcast. */
  function Learned(es: seq<Event>, from: int, packet: Packet, now: int): Option<int>
    requires PossibleRun(es)
  {
    var dest := packet.header.dest;
    R.Owner(TableEvents(es) + [R.Recorded(from, packet.header.src, now)], dest.network, dest.addr)
  }

  /** That is where the switch sends it. */
  lemma LookupIsLearned(es: seq<Event>, from: int, packet: Packet, now: int)
    requires PossibleRun(es) && from in Run(es).pipes
    ensures var dest := R.LookupDest(R.Record(Run(es).table, from, packet.header.src, now), packet.header.dest);
            match Learned(es, from, packet, now)
            case Some(port) => dest == port >= 0
            case None => dest == R.BROADCAST_DEST
  {
    hide R.Owner, R.Record, R.LookupDest, R.FreshPorts;
    RunOk(es);
    TableIsRun(es);
    var ts := TableEvents(es) + [R.Recorded(from, packet.header.src, now)];
    R.Snoc(TableEvents(es), R.Recorded(from, packet.header.src, now));
    R.LookupIsOwner(ts, packet.header.dest);
    R.RunAgrees(ts);
    RecordKeepsPorts(Run(es).table, from, packet.header.src, now);
  }

  /** Who gets a packet: exactly the open nodes other than the writer, only the learned one if
      there is one, whose pipe is not full. */
  lemma {:induction false} WriteReaches(es: seq<Event>, from: int, packet: Packet, now: int, id: int)
    requires PossibleRun(es) && from in Run(es).pipes && id in Run(es).pipes
    ensures var n, to := Run(es), Learned(es, from, packet, now);
            var p, p' := n.pipes[id], WritePacket(n, from, packet, now).pipes[id];
            && p'.taken == p.taken
            && p'.accepted == p.accepted +
                 if id in n.nodes && id != from && (to == None || to == Some(id)) && |p.buffer| < 16
                 then [Item(|n.writes|, packet)] else []
  {
    hide Run, R.Record, R.LookupDest, Learned;
    RunOk(es);
    LookupIsLearned(es, from, packet, now);
  }

  /** A write reports an error exactly when one of the nodes that it is for has 16 packets unread. */
  lemma {:induction false} WriteFailsWhenFull(es: seq<Event>, from: int, packet: Packet, now: int)
    requires PossibleRun(es) && from in Run(es).pipes
    ensures var n, to := Run(es), Learned(es, from, packet, now);
            WriteFails(n, from, packet, now) <==>
              exists k | k in n.nodes && k in n.pipes && k != from && (to == None || to == Some(k)) ::
                |n.pipes[k].accepted| - |n.pipes[k].taken| == 16
  {
    hide Run, R.Record, R.LookupDest, Learned;
    RunOk(es);
    LookupIsLearned(es, from, packet, now);
    var n := Run(es);
    forall k | k in n.pipes { PipeErrors(es, k, Item(|n.writes|, packet)); }
  }

  /** Pipes tell a full node from a closed one, and the reader of a closed one is told so. */
  lemma {:induction false} PipeErrors(es: seq<Event>, id: int, x: Item)
    requires PossibleRun(es) && id in Run(es).pipes
    ensures var n := Run(es);
            && ReadError(n.pipes[id]) == (if id in n.nodes then None else Some(ClosedPipe))
            && Put(n.pipes[id], x).1
               == if id !in n.nodes then Some(ClosedPipe)
                  else if |n.pipes[id].accepted| - |n.pipes[id].taken| == 16 then Some(PipeFull)
                  else None
  {
    hide Run;
    RunOk(es);
  }
}
