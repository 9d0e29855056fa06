/** Ethernet frames between two routers that sit on an addressable network: what one of them
    writes, the other one gets, and nobody else reads. */
module Tunnel {
  import opened Bytes
  import opened Ipx
  import A = Addressable
  import P = IpxPkt
  import R = Routing
  import S = Switch

  /** Only the node that a frame begins with reads its packets, and they come from the node that
      they name, unless the frame is a broadcast. */
  lemma {:induction false} FramesArePrivate(es: seq<A.Event>, id: int, x: S.Item,
                                            from: Addr, frame: seq<byte>, pid: u16, i: nat)
    requires A.ProperRun(es) && id in A.Run(es).delivered && x in A.Run(es).delivered[id]
    requires |frame| >= 6 && i < P.NumFragments(|frame|) && x.packet == P.Wrapped(from, frame, pid, i)
    requires frame[..6] != ADDR_BROADCAST
    ensures A.Run(es).addrs[id] == frame[..6]
    ensures x.write < |A.Run(es).inner.writes|
    ensures var writer := A.Run(es).inner.writes[x.write].from;
            writer in A.Run(es).addrs && A.Run(es).addrs[writer] == from
  {
    hide A.Run, P.Wrapped, A.RoutesOk, A.Apart, A.AddrsOk, S.NetOk;
    P.PacketsAreAddressed(from, frame, pid, i);
    A.SourcesAreTrue(es, id, x);
    A.RunInv(es);
    var n := A.Run(es);
    var k :| 0 <= k < |n.delivered[id]| && n.delivered[id][k] == x;
    assert A.Genuine(n.delivered[id][k], n.inner.pipes[id].accepted, n.addrs[id]);
  }

  // ---------------------------------------------------------------- a frame crosses the network

  lemma RunSnoc(es: seq<A.Event>, e: A.Event)
    requires A.ProperRun(es) && A.Proper(A.Run(es), e)
    ensures A.ProperRun(es + [e]) && A.Run(es + [e]) == A.Step(A.Run(es), e)
  {
    hide A.Step, A.Proper;
    assert (es + [e])[..|es|] == es;
  }

  /** A packet from one open node to another. */
  ghost predicate Between(n: A.Net, a: int, b: int, p: Packet)
    requires A.Shape(n)
  {
    && a in n.inner.nodes && b in n.inner.nodes && a != b
    && p.header.src.network == ZERO_NETWORK && p.header.src.addr == n.addrs[a]
    && p.header.dest.network == ZERO_NETWORK && p.header.dest.addr == n.addrs[b]
  }

  /** The same nodes, with more packets in the pipe of one of them. */
  ghost predicate Grown(n: A.Net, n': A.Net, b: int, items: seq<S.Item>)
  {
    && A.Shape(n) && A.Shape(n') && b in n.inner.pipes && b in n'.inner.pipes
    && n'.addrs == n.addrs && n'.inner.nodes == n.inner.nodes
    && |n'.inner.writes| == |n.inner.writes| + |items|
    && |n'.inner.pipes[b].buffer| == |n.inner.pipes[b].buffer| + |items|
    && n'.inner.pipes[b].accepted == n.inner.pipes[b].accepted + items
  }

  lemma GrownByNone(n: A.Net, b: int)
    requires A.Shape(n) && b in n.inner.nodes
    ensures Grown(n, n, b, [])
  {
    assert n.inner.pipes[b].accepted + [] == n.inner.pipes[b].accepted;
  }

  lemma GrownTwice(n: A.Net, n1: A.Net, n2: A.Net, b: int, items: seq<S.Item>, x: S.Item)
    requires Grown(n, n1, b, items) && Grown(n1, n2, b, [x])
    ensures Grown(n, n2, b, items + [x])
  {
    assert n.inner.pipes[b].accepted + items + [x] == n.inner.pipes[b].accepted + (items + [x]);
  }

  /** It enters the pipe of the other node if there is room, flooded or switched. */
  lemma WriteEnters(es: seq<A.Event>, a: int, b: int, p: Packet, now: int)
    requires A.ProperRun(es) && Between(A.Run(es), a, b, p) && |A.Run(es).inner.pipes[b].buffer| < 16
    ensures var es', n := es + [A.Writes(a, p, now)], A.Run(es);
            A.ProperRun(es') && Grown(n, A.Run(es'), b, [S.Item(|n.inner.writes|, p)])
  {
    hide A.Run, A.AddrsOk, A.RoutesOk, A.Apart, A.DeliveredOk, R.Record, R.LookupDest;
    var n, e := A.Run(es), A.Writes(a, p, now);
    A.RunInv(es);
    RunSnoc(es, e);
    A.RouteLeadsToOwner(es + [e], b, p.header.dest.socket);
    assert p.header.dest == HeaderAddr(ZERO_NETWORK, n.addrs[b], p.header.dest.socket);
  }

  /** Node a writes the first k packets of a frame. */
  function Written(es: seq<A.Event>, a: int, from: Addr, frame: seq<byte>, pid: u16, now: int, k: nat): seq<A.Event>
    requires |frame| >= 6 && k <= P.NumFragments(|frame|)
  {
    if k == 0 then es
    else Written(es, a, from, frame, pid, now, k - 1) + [A.Writes(a, P.Wrapped(from, frame, pid, k - 1), now)]
  }

  /** The packets in transit, the first of them being write number w. */
  function Items(w: nat, from: Addr, frame: seq<byte>, pid: u16, k: nat): (items: seq<S.Item>)
    requires |frame| >= 6 && k <= P.NumFragments(|frame|)
    ensures |items| == k
  {
    if k == 0 then [] else Items(w, from, frame, pid, k - 1) + [S.Item(w + k - 1, P.Wrapped(from, frame, pid, k - 1))]
  }

  /** A router at node a sends a frame to the address of node b. */
  ghost predicate Sending(n: A.Net, a: int, b: int, from: Addr, frame: seq<byte>)
    requires A.Shape(n)
  {
    && a in n.inner.nodes && b in n.inner.nodes && a != b && |frame| >= 6
    && from == n.addrs[a] && frame[..6] == n.addrs[b]
  }

  lemma {:induction false} WritesEnter(es: seq<A.Event>, a: int, b: int,
                                       from: Addr, frame: seq<byte>, pid: u16, now: int, k: nat)
    requires A.ProperRun(es) && Sending(A.Run(es), a, b, from, frame) && k <= P.NumFragments(|frame|)
    requires |A.Run(es).inner.pipes[b].buffer| + k <= 16
    ensures var n, es' := A.Run(es), Written(es, a, from, frame, pid, now, k);
            A.ProperRun(es') && Grown(n, A.Run(es'), b, Items(|n.inner.writes|, from, frame, pid, k))
  {
    hide A.Run, A.ProperRun, A.Shape, P.Wrapped, P.FragmentAt, P.NumFragments;
    var n := A.Run(es);
    if k == 0 {
      GrownByNone(n, b);
    } else {
      WritesEnter(es, a, b, from, frame, pid, now, k - 1);
      var es1, p := Written(es, a, from, frame, pid, now, k - 1), P.Wrapped(from, frame, pid, k - 1);
      P.PacketsAreAddressed(from, frame, pid, k - 1);
      WriteEnters(es1, a, b, p, now);
      GrownTwice(n, A.Run(es1), A.Run(es1 + [A.Writes(a, p, now)]), b, Items(|n.inner.writes|, from, frame, pid, k - 1),
                 S.Item(|n.inner.writes| + k - 1, p));
    }
  }

  /** Node b reads k times. */
  function Reading(es: seq<A.Event>, b: int, k: nat): seq<A.Event>
  {
    if k == 0 then es else Reading(es, b, k - 1) + [A.Reads(b)]
  }

  /** A node that reads often enough empties its pipe. */
  lemma {:induction false} ReadsEmpty(es: seq<A.Event>, b: int, k: nat)
    requires A.ProperRun(es) && b in A.Run(es).inner.nodes
    ensures var n, es' := A.Run(es), Reading(es, b, k);
            && A.ProperRun(es')
            && var n' := A.Run(es');
               && n'.addrs == n.addrs && b in n'.inner.nodes && n'.inner.writes == n.inner.writes
               && n'.inner.pipes[b].accepted == n.inner.pipes[b].accepted
               && |n'.inner.pipes[b].buffer| <= Max(|n.inner.pipes[b].buffer| - k, 0)
  {
    hide A.Run, A.ProperRun, A.ReadPacket, A.AddrsOk, A.RoutesOk, A.Apart, A.DeliveredOk;
    if k > 0 {
      ReadsEmpty(es, b, k - 1);
      var es1 := Reading(es, b, k - 1);
      A.RunInv(es1);
      RunSnoc(es1, A.Reads(b));
      A.ReadKeepsRest(A.Run(es1), b);
    }
  }

  lemma {:induction false} ItemsAreSifted(items: seq<S.Item>, w: nat, from: Addr, frame: seq<byte>, pid: u16, k: nat)
    requires |frame| >= 6 && k <= P.NumFragments(|frame|)
    ensures A.Sifted(items + Items(w, from, frame, pid, k), frame[..6])
         == A.Sifted(items, frame[..6]) + Items(w, from, frame, pid, k)
  {
    hide A.Sifted, P.Wrapped, P.FragmentAt, P.NumFragments;
    if k == 0 {
      assert items + [] == items;
    } else {
      var x := S.Item(w + k - 1, P.Wrapped(from, frame, pid, k - 1));
      ItemsAreSifted(items, w, from, frame, pid, k - 1);
      P.PacketsAreAddressed(from, frame, pid, k - 1);
      assert items + Items(w, from, frame, pid, k) == items + Items(w, from, frame, pid, k - 1) + [x];
      A.SiftedSnoc(items + Items(w, from, frame, pid, k - 1), x, frame[..6]);
    }
  }

  /** A reassembler is given the packets read, all at one time. */
  function Fed(items: seq<S.Item>, now: int): (es: seq<P.Event>)
    ensures |es| == |items|
  {
    seq(|items|, i requires 0 <= i < |items| => P.Event(items[i].packet, now, {}))
  }

  lemma {:induction false} FedInOrder(w: nat, from: Addr, frame: seq<byte>, pid: u16, now: int, k: nat)
    requires |frame| >= 6 && k <= P.NumFragments(|frame|)
    ensures Fed(Items(w, from, frame, pid, k), now) == P.InOrder(from, frame, pid, now, k)
  {
    hide P.Wrapped, P.FragmentAt, P.NumFragments;
    if k > 0 {
      FedInOrder(w, from, frame, pid, now, k - 1);
      P.InOrderSnoc(from, frame, pid, now, k - 1);
      var items := Items(w, from, frame, pid, k - 1);
      var x := S.Item(w + k - 1, P.Wrapped(from, frame, pid, k - 1));
      assert Fed(items + [x], now) == Fed(items, now) + [P.Event(x.packet, now, {})];
    }
  }

  /** A frame crosses the network: if the other node has room for its packets and reads often
      enough, what it has read ends with exactly those packets, in order. */
  lemma {:induction false} FrameCrosses(es: seq<A.Event>, a: int, b: int, from: Addr, frame: seq<byte>, pid: u16, now: int,
                                        turns: nat)
    requires A.ProperRun(es) && Sending(A.Run(es), a, b, from, frame)
    requires |A.Run(es).inner.pipes[b].buffer| + P.NumFragments(|frame|) <= 16 <= turns
    ensures var n, es' := A.Run(es), Reading(Written(es, a, from, frame, pid, now, P.NumFragments(|frame|)), b, turns);
            && A.ProperRun(es')
            && A.Run(es').delivered[b]
               == A.Sifted(n.inner.pipes[b].accepted, n.addrs[b])
                  + Items(|n.inner.writes|, from, frame, pid, P.NumFragments(|frame|))
  {
    hide A.Run, A.ProperRun, A.Sifted, P.Wrapped, P.FragmentAt;
    var nf := P.NumFragments(|frame|);
    var es1 := Written(es, a, from, frame, pid, now, nf);
    WritesEnter(es, a, b, from, frame, pid, now, nf);
    ReadsEmpty(es1, b, turns);
    var es2 := Reading(es1, b, turns);
    A.NothingIsLostOnReading(es2, b);
    TakenIsAccepted(es2, b);
    ItemsAreSifted(A.Run(es).inner.pipes[b].accepted, |A.Run(es).inner.writes|, from, frame, pid, nf);
  }

  lemma TakenIsAccepted(es: seq<A.Event>, b: int)
    requires A.ProperRun(es) && b in A.Run(es).inner.pipes && A.Run(es).inner.pipes[b].buffer == []
    ensures A.Run(es).inner.pipes[b].taken == A.Run(es).inner.pipes[b].accepted
  {
    hide A.Run, A.AddrsOk, A.RoutesOk, A.Apart, A.DeliveredOk;
    A.RunInv(es);
  }

  /** And the router there puts them together: given to a reassembler with room that is not busy
      with that packet number, they give the frame with the last of them, and nothing before. */
  lemma {:induction false} FrameIsRestored(t: P.Table, w: nat, from: Addr, frame: seq<byte>, pid: u16, now: int, k: nat)
    requires |frame| >= 6 && k < P.NumFragments(|frame|) <= 16
    requires P.KeyOf(from, pid) !in t && |t| < P.MAX_FRAMES
    ensures var es := Fed(Items(w, from, frame, pid, P.NumFragments(|frame|)), now);
            && P.Lawful(t, es)
            && P.Receive(P.Run(t, es[..k]), es[k]).1 == if k + 1 == P.NumFragments(|frame|) then Some(frame) else None
  {
    hide P.Wrapped, P.FragmentAt, P.Receive, P.Run;
    var nf := P.NumFragments(|frame|);
    FedInOrder(w, from, frame, pid, now, nf);
    P.InOrderIsLawful(t, from, frame, pid, now, nf);
    P.InOrderCompletes(t, from, frame, pid, now, k);
    assert P.InOrder(from, frame, pid, now, nf)[..k] == P.InOrder(from, frame, pid, now, k);
  }
}
