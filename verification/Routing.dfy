/** The switch's routing table: which port each address was last heard on, with a reverse
    index from ports to addresses. */
module Routing {
  import opened Bytes
  import opened Ipx

  const BROADCAST_DEST := -1
  const FRESH_FOR := 5 * SECOND

  datatype Route = Route(port: int, lastRX: int)

  datatype Table = Table(addrs: map<HeaderAddr, Route>, ports: map<int, set<HeaderAddr>>)

  const EMPTY := Table(map[], map[])

  function MakeKey(a: HeaderAddr): HeaderAddr { a.(socket := 0) }

  predicate Recordable(src: HeaderAddr) { src.addr != ADDR_BROADCAST && src.addr != ADDR_NULL }

  /** checkDestPort: nothing needs to change. */
  predicate UpToDate(t: Table, key: HeaderAddr, port: int, now: int)
  {
    key in t.addrs && t.addrs[key].port == port && now - t.addrs[key].lastRX < FRESH_FOR
  }

  /** What Record does under the write lock. */
  function Update(t: Table, port: int, key: HeaderAddr, now: int): Table
  {
    if port !in t.ports then t
    else if key in t.addrs && t.addrs[key].port == port then t.(addrs := t.addrs[key := Route(port, now)])
    else Table(t.addrs[key := Route(port, now)], t.ports[port := t.ports[port] + {key}])
  }

  function Record(t: Table, port: int, src: HeaderAddr, now: int): Table
  {
    if !Recordable(src) || UpToDate(t, MakeKey(src), port, now) then t else Update(t, port, MakeKey(src), now)
  }

  function LookupDest(t: Table, dest: HeaderAddr): int
  {
    if dest.addr == ADDR_BROADCAST || MakeKey(dest) !in t.addrs then BROADCAST_DEST
    else t.addrs[MakeKey(dest)].port
  }

  function AddPort(t: Table, port: int): Table { t.(ports := t.ports[port := {}]) }

  function DeletePort(t: Table, port: int): Table
  {
    if port !in t.ports then t
    else t.(addrs := map k | k in t.addrs && !(k in t.ports[port] && t.addrs[k].port == port) :: t.addrs[k])
  }

  datatype Event = Added(port: int) | Recorded(port: int, src: HeaderAddr, now: int) | Deleted(port: int)

  function Step(t: Table, e: Event): Table
  {
    match e
    case Added(port) => AddPort(t, port)
    case Recorded(port, src, now) => Record(t, port, src, now)
    case Deleted(port) => DeletePort(t, port)
  }

  function Run(es: seq<Event>): Table
  {
    if es == [] then EMPTY else Step(Run(es[..|es| - 1]), es[|es| - 1])
  }

  // ---------------------------------------------------------------- the simple map it stands for

  function Ports(es: seq<Event>): set<int>
  {
    if es == [] then {}
    else Ports(es[..|es| - 1]) + if es[|es| - 1].Added? then {es[|es| - 1].port} else {}
  }

  /** The last port that a node address was heard from, whatever the socket, unless that port has
      been deleted since. The broadcast and the null address belong to no port. */
  function Owner(es: seq<Event>, network: NetworkNum, addr: Addr): Option<int>
  {
    if es == [] || addr == [0xff, 0xff, 0xff, 0xff, 0xff, 0xff] || addr == [0, 0, 0, 0, 0, 0] then None
    else
      var before := es[..|es| - 1];
      var owner := Owner(before, network, addr);
      match es[|es| - 1]
      case Added(_) => owner
      case Recorded(port, src, _) =>
        if src.network == network && src.addr == addr && port in Ports(before) then Some(port) else owner
      case Deleted(port) => if owner == Some(port) then None else owner
  }

  /** Port numbers are not used twice. */
  predicate FreshPorts(es: seq<Event>)
  {
    es == [] ||
    var before, e := es[..|es| - 1], es[|es| - 1];
    FreshPorts(before) && (e.Added? ==> e.port !in Ports(before))
  }

  /** Every routed address is in the index of its own port. */
  ghost predicate Indexed(t: Table)
  {
    forall k | k in t.addrs :: t.addrs[k].port in t.ports && k in t.ports[t.addrs[k].port]
  }

  lemma StepKeepsIndexed(t: Table, e: Event)
    requires Indexed(t) && (e.Added? ==> e.port !in t.ports)
    ensures Indexed(Step(t, e))
  {
  }

  ghost predicate Agrees(t: Table, es: seq<Event>)
  {
    && Indexed(t)
    && t.ports.Keys == Ports(es)
    && (forall k | k in t.addrs :: k.socket == 0)
    && forall network, addr ::
         var key := HeaderAddr(network, addr, 0);
         Owner(es, network, addr) == if key in t.addrs then Some(t.addrs[key].port) else None
  }

  /** One step, for one address. */
  lemma StepAgrees(t: Table, es: seq<Event>, network: NetworkNum, addr: Addr)
    requires es != [] && Agrees(t, es[..|es| - 1])
    ensures var t', key := Step(t, es[|es| - 1]), HeaderAddr(network, addr, 0);
            Owner(es, network, addr) == if key in t'.addrs then Some(t'.addrs[key].port) else None
  {
    var key := HeaderAddr(network, addr, 0);
    assert Owner(es[..|es| - 1], network, addr) == if key in t.addrs then Some(t.addrs[key].port) else None;
  }

  lemma StepKeepsKeys(t: Table, e: Event)
    requires forall k | k in t.addrs :: k.socket == 0
    ensures forall k | k in Step(t, e).addrs :: k.socket == 0
    ensures Step(t, e).ports.Keys == t.ports.Keys + if e.Added? then {e.port} else {}
  {
  }

  lemma {:induction false} RunAgrees(es: seq<Event>)
    requires FreshPorts(es)
    ensures Agrees(Run(es), es)
  {
    hide Step, Owner, Indexed;
    if es == [] {
      NothingOwned();
    } else {
      var t, e := Run(es[..|es| - 1]), es[|es| - 1];
      RunAgrees(es[..|es| - 1]);
      StepKeepsIndexed(t, e);
      StepKeepsKeys(t, e);
      forall network, addr
        ensures var key := HeaderAddr(network, addr, 0);
                Owner(es, network, addr) == if key in Step(t, e).addrs then Some(Step(t, e).addrs[key].port) else None
      {
        StepAgrees(t, es, network, addr);
      }
    }
  }

  lemma NothingOwned()
    ensures Agrees(EMPTY, [])
  {
  }

  /** The table refines a simple map: after any run, a lookup gives the last port that the address
      was heard from and that has not been deleted since, or broadcast. */
  lemma {:induction false} LookupIsOwner(es: seq<Event>, dest: HeaderAddr)
    requires FreshPorts(es)
    ensures LookupDest(Run(es), dest) ==
            match Owner(es, dest.network, dest.addr)
            case Some(port) => port
            case None => -1
  {
    RunAgrees(es);
  }

  /** The fast path is invisible: whether it is taken or not, every lookup is the same, and
      the address recorded was heard on this port less than five seconds ago. */
  lemma {:induction false} RecordIsFresh(es: seq<Event>, port: int, src: HeaderAddr, now: int)
    requires FreshPorts(es) && port in Ports(es) && src.addr != ADDR_BROADCAST && src.addr != ADDR_NULL
    ensures var t, key := Record(Run(es), port, src, now), HeaderAddr(src.network, src.addr, 0);
            && (forall dest :: LookupDest(t, dest) == LookupDest(Update(Run(es), port, key, now), dest))
            && key in t.addrs && t.addrs[key].port == port && now - t.addrs[key].lastRX < 5 * SECOND
  {
    RunAgrees(es);
  }

  // ---------------------------------------------------------------- the index is not exact

  /** The index of each port lists exactly the addresses routed to it. */
  ghost predicate ExactIndex(t: Table)
  {
    Indexed(t) && forall p, k | p in t.ports && k in t.ports[p] :: k in t.addrs && t.addrs[k].port == p
  }

  /** Recording keeps the index exact unless the address moves from another port, which then
      keeps a stale entry. */
  lemma RecordKeepsIndexExact(t: Table, port: int, src: HeaderAddr, now: int)
    requires ExactIndex(t)
    ensures ExactIndex(Record(t, port, src, now)) <==>
            !(Recordable(src) && port in t.ports && MakeKey(src) in t.addrs && t.addrs[MakeKey(src)].port != port)
  {
    var key, t' := MakeKey(src), Record(t, port, src, now);
    if Recordable(src) && port in t.ports && key in t.addrs && t.addrs[key].port != port {
      var other := t.addrs[key].port;
      assert key in t'.ports[other] && t'.addrs[key].port != other;
    }
  }

  /** Deleting a port keeps the index exact only if the port had no addresses. */
  lemma DeleteKeepsIndexExact(t: Table, port: int)
    requires ExactIndex(t)
    ensures ExactIndex(DeletePort(t, port)) <==> port in t.ports ==> t.ports[port] == {}
  {
    if port in t.ports && t.ports[port] != {} {
      var k :| k in t.ports[port];
      assert k in DeletePort(t, port).ports[port] && k !in DeletePort(t, port).addrs;
    }
  }

  /** Before the address moves: two ports, and the address at the first. */
  lemma HeardAtFirst(src: HeaderAddr)
    requires Recordable(src)
    ensures var es := [Added(0), Added(1), Recorded(0, src, 0)];
            && FreshPorts(es) && ExactIndex(Run(es))
            && 1 in Run(es).ports && MakeKey(src) in Run(es).addrs && Run(es).addrs[MakeKey(src)].port == 0
  {
    hide ExactIndex, Step, Record;
    var e0, e1, r0 := Added(0), Added(1), Recorded(0, src, 0);
    assert [e0] == [] + [e0] && [e0, e1] == [e0] + [e1] && [e0, e1, r0] == [e0, e1] + [r0];
    Snoc([], e0);
    Snoc([e0], e1);
    Snoc([e0, e1], r0);
    FirstRecord(src);
  }

  lemma FirstRecord(src: HeaderAddr)
    requires Recordable(src)
    ensures var t := Step(Step(Step(EMPTY, Added(0)), Added(1)), Recorded(0, src, 0));
            ExactIndex(t) && 1 in t.ports && MakeKey(src) in t.addrs && t.addrs[MakeKey(src)].port == 0
  {
    var t := Step(Step(EMPTY, Added(0)), Added(1));
    assert t == Table(map[], map[0 := {}, 1 := {}]);
    var key, t' := MakeKey(src), Record(t, 0, src, 0);
    assert t'.addrs == map[key := Route(0, 0)];
    assert {} + {key} == {key};
    assert t'.ports == map[0 := {key}, 1 := {}];
  }

  /** A two-port run that leaves a stale entry behind. */
  lemma StaleEntry(src: HeaderAddr)
    requires Recordable(src)
    ensures var es := [Added(0), Added(1), Recorded(0, src, 0), Recorded(1, src, 0)];
            FreshPorts(es) && Indexed(Run(es)) && !ExactIndex(Run(es))
  {
    hide ExactIndex, Run, FreshPorts, Record, Recordable;
    var es, r1 := [Added(0), Added(1), Recorded(0, src, 0)], Recorded(1, src, 0);
    HeardAtFirst(src);
    assert [Added(0), Added(1), Recorded(0, src, 0), Recorded(1, src, 0)] == es + [r1];
    Snoc(es, r1);
    RecordKeepsIndexExact(Run(es), 1, src, 0);
    RunAgrees(es + [r1]);
  }

  lemma Snoc(es: seq<Event>, e: Event)
    ensures Run(es + [e]) == Step(Run(es), e)
    ensures FreshPorts(es + [e]) <==> FreshPorts(es) && (e.Added? ==> e.port !in Ports(es))
    ensures Ports(es + [e]) == Ports(es) + if e.Added? then {e.port} else {}
  {
    assert (es + [e])[..|es|] == es;
  }
}
