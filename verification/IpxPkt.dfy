/** Ethernet frames tunnelled over IPX: a frame is cut into fragments that the receiver puts
    together again in a table of bounded size, whatever order they arrive in. */
module IpxPkt {
  import opened Bytes
  import Ipx

  const MAX_FRAGMENT_PAYLOAD := 510
  const MAX_FRAMES := 16
  const MAX_AGE := 10 * SECOND
  const IPX_SOCKET: u16 := 0x6181
  const TRAIL_BYTES := 32
  const HEADER_LENGTH := 4

  // ---------------------------------------------------------------- fragmentation header

  datatype Header = Header(fragment: byte, numFragments: byte, packetID: u16)

  predicate GoodHeader(h: Header) { 1 <= h.fragment <= h.numFragments }

  function MarshalHeader(h: Header): (b: seq<byte>)
    ensures |b| == HEADER_LENGTH
  {
    [h.fragment, h.numFragments] + PutLittle16(h.packetID)
  }

  function UnmarshalHeader(b: seq<byte>): (r: Option<Header>)
    ensures r.Some? ==> |b| >= HEADER_LENGTH && GoodHeader(r.value)
  {
    if |b| < HEADER_LENGTH then None
    else
      var h := Header(b[0], b[1], Little16(b[2..4]));
      if h.fragment < 1 || h.numFragments < 1 || h.fragment > h.numFragments then None else Some(h)
  }

  /** A header comes back exactly when it names one of its fragments. */
  lemma HeaderRoundTrip(h: Header, rest: seq<byte>)
    ensures UnmarshalHeader(MarshalHeader(h) + rest) == if GoodHeader(h) then Some(h) else None
  {
    var b := MarshalHeader(h) + rest;
    assert b[2..4] == PutLittle16(h.packetID);
  }

  // ---------------------------------------------------------------- splitting

  function NumFragments(n: nat): nat { (n + MAX_FRAGMENT_PAYLOAD - 1) / MAX_FRAGMENT_PAYLOAD }

  function FragmentAt(frame: seq<byte>, i: nat): (f: seq<byte>)
    requires i < NumFragments(|frame|)
    ensures 0 < |f| <= MAX_FRAGMENT_PAYLOAD
  {
    frame[MAX_FRAGMENT_PAYLOAD * i..Min(MAX_FRAGMENT_PAYLOAD * (i + 1), |frame|)]
  }

  /** All fragments but the last are full. */
  lemma FragmentSizes(frame: seq<byte>, i: nat)
    requires i < NumFragments(|frame|)
    ensures if i + 1 < NumFragments(|frame|) then |FragmentAt(frame, i)| == 510 else 0 < |FragmentAt(frame, i)| <= 510
    ensures NumFragments(|frame|) == (|frame| + 509) / 510
  {
  }

  function Fragments(frame: seq<byte>): (r: seq<seq<byte>>)
    ensures |r| == NumFragments(|frame|)
  {
    seq(NumFragments(|frame|), i requires 0 <= i < NumFragments(|frame|) => FragmentAt(frame, i))
  }

  function Flatten(fs: seq<seq<byte>>): seq<byte>
  {
    if fs == [] then [] else Flatten(fs[..|fs| - 1]) + fs[|fs| - 1]
  }

  lemma {:induction false} FlattenPrefix(frame: seq<byte>, k: nat)
    requires k <= NumFragments(|frame|)
    ensures Flatten(Fragments(frame)[..k]) == frame[..Min(MAX_FRAGMENT_PAYLOAD * k, |frame|)]
  {
    if k > 0 {
      FlattenPrefix(frame, k - 1);
      assert Fragments(frame)[..k][..k - 1] == Fragments(frame)[..k - 1];
    }
  }

  /** The fragments, put end to end, are the frame. */
  lemma FragmentsFlatten(frame: seq<byte>)
    ensures Flatten(Fragments(frame)) == frame
  {
    FlattenPrefix(frame, NumFragments(|frame|));
    assert Fragments(frame)[..NumFragments(|frame|)] == Fragments(frame);
  }

  // ---------------------------------------------------------------- sending

  function Trail(): (b: seq<byte>)
    ensures |b| == TRAIL_BYTES
  {
    seq(TRAIL_BYTES, _ => 0)
  }

  function Wrapped(from: Ipx.Addr, frame: seq<byte>, id: u16, i: nat): (p: Ipx.Packet)
    requires |frame| >= 6 && i < NumFragments(|frame|)
    ensures p.header.length == Ipx.HEADER_LENGTH + |p.payload|
  {
    var frag := FragmentAt(frame, i);
    Ipx.Packet(
      Ipx.Header(0xffff, (Ipx.HEADER_LENGTH + HEADER_LENGTH + TRAIL_BYTES + |frag|) % 0x1_0000, 0, 0,
                 Ipx.HeaderAddr(Ipx.ZERO_NETWORK, frame[0..6], IPX_SOCKET),
                 Ipx.HeaderAddr(Ipx.ZERO_NETWORK, from, IPX_SOCKET)),
      Trail() + MarshalHeader(Header((i + 1) % 0x100, NumFragments(|frame|) % 0x100, id)) + frag)
  }

  /** What is sent for a frame: packets from the router's node to the node whose address the frame
      begins with, on network zero, each with 32 bytes of zeros, its place in the frame, the number
      of fragments, the packet number and its piece of the frame. */
  lemma {:induction false} PacketsAreAddressed(from: Ipx.Addr, frame: seq<byte>, id: u16, i: nat)
    requires |frame| >= 6 && i < NumFragments(|frame|)
    ensures var p := Wrapped(from, frame, id, i);
            && p.header.dest == Ipx.HeaderAddr([0, 0, 0, 0], frame[..6], 0x6181)
            && p.header.src == Ipx.HeaderAddr([0, 0, 0, 0], from, 0x6181)
            && p.header.checksum == 0xffff && p.header.transControl == p.header.packetType == 0
            && p.header.length == 30 + |p.payload| && |p.payload| >= 36
            && (forall k | 0 <= k < 32 :: p.payload[k] == 0)
            && p.payload[32] == (i + 1) % 256 && p.payload[33] == NumFragments(|frame|) % 256
            && p.payload[34] + 256 * p.payload[35] as int == id
            && p.payload[36..] == FragmentAt(frame, i)
  {
    hide FragmentAt, NumFragments;
    var p, hdr := Wrapped(from, frame, id, i), Header((i + 1) % 0x100, NumFragments(|frame|) % 0x100, id);
    assert p.payload == Trail() + MarshalHeader(hdr) + FragmentAt(frame, i);
    assert p.payload[32..36] == MarshalHeader(hdr);
    assert forall k | 0 <= k < 4 :: p.payload[32 + k] == p.payload[32..36][k];
    assert p.payload[32 + 0] == hdr.fragment && p.payload[32 + 1] == hdr.numFragments;
    assert p.payload[32 + 2] == id % 0x100 && p.payload[32 + 3] == id / 0x100;
  }

  // ---------------------------------------------------------------- receiving

  datatype Key = Key(src: Ipx.HeaderAddr, packetID: u16)

  datatype Partial = Partial(fragments: seq<Option<seq<byte>>>, lastRX: int)

  type Table = map<Key, Partial>

  /** What a packet holds, when it is a well-formed fragment. */
  datatype Piece = Piece(key: Key, hdr: Header, body: seq<byte>)

  function Unwrap(p: Ipx.Packet): (r: Option<Piece>)
    ensures r.Some? ==> GoodHeader(r.value.hdr)
  {
    if p.header.dest.socket != IPX_SOCKET || |p.payload| < TRAIL_BYTES + HEADER_LENGTH then None
    else
      var payload := p.payload[TRAIL_BYTES..];
      match UnmarshalHeader(payload)
      case None => None
      case Some(hdr) => Some(Piece(Key(p.header.src, hdr.packetID), hdr, payload[HEADER_LENGTH..]))
  }

  /** Which packets are fragments, and what of, byte for byte; anything else is left alone. */
  lemma {:induction false} FragmentsAreRecognised(p: Ipx.Packet)
    ensures Unwrap(p).Some? <==>
            p.header.dest.socket == 0x6181 && |p.payload| >= 36 && 1 <= p.payload[32] <= p.payload[33]
    ensures Unwrap(p).Some? ==>
              var piece := Unwrap(p).value;
              && piece.key == Key(p.header.src, p.payload[34] + 256 * p.payload[35] as int)
              && piece.hdr.fragment == p.payload[32] && piece.hdr.numFragments == p.payload[33]
              && piece.body == p.payload[36..]
  {
    if |p.payload| >= 36 {
      var payload := p.payload[TRAIL_BYTES..];
      assert forall k | 0 <= k < 4 :: payload[k] == p.payload[32 + k];
      assert payload[2..4][0] == p.payload[34] && payload[2..4][1] == p.payload[35];
      assert payload[HEADER_LENGTH..] == p.payload[36..];
    }
  }

  predicate Complete(fs: seq<Option<seq<byte>>>) { forall i | 0 <= i < |fs| :: fs[i].Some? }

  function Values(fs: seq<Option<seq<byte>>>): seq<seq<byte>>
    requires Complete(fs)
  {
    seq(|fs|, i requires 0 <= i < |fs| => fs[i].value)
  }

  function Fresh(n: nat): (fs: seq<Option<seq<byte>>>)
  {
    seq(n, _ => None)
  }

  function ProcessFragment(fd: Partial, hdr: Header, body: seq<byte>, now: int): (Partial, Option<seq<byte>>)
    requires GoodHeader(hdr)
  {
    if hdr.numFragments != |fd.fragments| then (fd, None)
    else
      var fs := fd.fragments[hdr.fragment - 1 := Some(body)];
      (Partial(fs, now), if Complete(fs) then Some(Flatten(Values(fs))) else None)
  }

  predicate Expired(fd: Partial, now: int) { now > fd.lastRX + MAX_AGE }

  function ExpiredKeys(t: Table, now: int): set<Key> { set k | k in t && Expired(t[k], now) }

  /** The keys that one flush removes: all expired frames or, when there are none, one frame
      that has waited longest. */
  ghost predicate Evicts(t: Table, now: int, evicted: set<Key>)
  {
    if ExpiredKeys(t, now) != {} then evicted == ExpiredKeys(t, now)
    else exists k | k in t :: evicted == {k} && forall k' | k' in t :: t[k].lastRX <= t[k'].lastRX
  }

  /** One packet received. The table's iteration order shows only in what is evicted. */
  datatype Event = Event(packet: Ipx.Packet, now: int, evicted: set<Key>)

  predicate MakesRoom(t: Table, e: Event)
  {
    match Unwrap(e.packet)
    case None => false
    case Some(p) => p.hdr.numFragments != 1 && p.key !in t && |t| >= MAX_FRAMES
  }

  /** The table with an entry for the frame of a piece. */
  function Opened(t: Table, p: Piece, evicted: set<Key>): (t': Table)
    ensures p.key in t'
  {
    if p.key in t then t
    else if |t| >= MAX_FRAMES then (t - evicted)[p.key := Partial(Fresh(p.hdr.numFragments), 0)]
    else t[p.key := Partial(Fresh(p.hdr.numFragments), 0)]
  }

  function Reassemble(t: Table, p: Piece, now: int, evicted: set<Key>): (Table, Option<seq<byte>>)
    requires GoodHeader(p.hdr)
  {
    if p.hdr.numFragments == 1 then (t, Some(p.body))
    else
      var t1 := Opened(t, p, evicted);
      var r := ProcessFragment(t1[p.key], p.hdr, p.body, now);
      if r.1.None? then (t1[p.key := r.0], None) else (t1 - {p.key}, r.1)
  }

  function Receive(t: Table, e: Event): (Table, Option<seq<byte>>)
  {
    match Unwrap(e.packet)
    case None => (t, None)
    case Some(p) => Reassemble(t, p, e.now, e.evicted)
  }

  function Run(t: Table, es: seq<Event>): Table
  {
    if es == [] then t else Receive(Run(t, es[..|es| - 1]), es[|es| - 1]).0
  }

  /** Every flush of the run removes what a flush may remove. */
  ghost predicate Lawful(t: Table, es: seq<Event>)
  {
    es == [] ||
    var before, e := es[..|es| - 1], es[|es| - 1];
    Lawful(t, before) && (MakesRoom(Run(t, before), e) ==> Evicts(Run(t, before), e.now, e.evicted))
  }

  /** A frame of one fragment comes out at once, whatever the table holds, and leaves it alone; so
      does a packet that is no fragment, without a result. */
  lemma {:induction false} WholeFramesPass(t: Table, e: Event)
    ensures var p := e.packet;
            && (Unwrap(p) == None ==> Receive(t, e) == (t, None))
            && (Unwrap(p).Some? && p.payload[33] == 1 ==> Receive(t, e) == (t, Some(p.payload[36..])))
  {
    FragmentsAreRecognised(e.packet);
  }

  // ---------------------------------------------------------------- the table stays small

  ghost predicate PartialOk(fd: Partial)
  {
    && 2 <= |fd.fragments| <= 255
    && (exists i | 0 <= i < |fd.fragments| :: fd.fragments[i].Some?)
    && !Complete(fd.fragments)
  }

  ghost predicate TableOk(t: Table)
  {
    |t| <= MAX_FRAMES && forall k | k in t :: PartialOk(t[k])
  }

  lemma EvictionShrinks(t: Table, now: int, evicted: set<Key>)
    requires Evicts(t, now, evicted)
    ensures evicted <= t.Keys && evicted != {} && |t - evicted| < |t|
  {
    assert (t - evicted).Keys == t.Keys - evicted;
    assert |t.Keys - evicted| == |t.Keys| - |evicted * t.Keys|;
    assert evicted * t.Keys == evicted;
  }

  /** Which frames a flush can remove: one not heard of for more than ten seconds or, when there is
      none, one that no other frame has waited longer than. */
  lemma FlushSpares(t: Table, now: int, key: Key)
    requires key in t
    ensures (exists evicted :: Evicts(t, now, evicted) && key in evicted) <==>
            || now - t[key].lastRX > 10 * SECOND
            || forall k | k in t :: now - t[k].lastRX <= 10 * SECOND && t[key].lastRX <= t[k].lastRX
  {
    if Expired(t[key], now) {
      assert key in ExpiredKeys(t, now);
      assert Evicts(t, now, ExpiredKeys(t, now));
    } else if forall k | k in t :: !Expired(t[k], now) && t[key].lastRX <= t[k].lastRX {
      assert ExpiredKeys(t, now) == {};
      assert Evicts(t, now, {key});
    } else {
      forall evicted | Evicts(t, now, evicted) ensures key !in evicted {
        var k :| k in t && (Expired(t[k], now) || t[k].lastRX < t[key].lastRX);
        if Expired(t[k], now) { assert k in ExpiredKeys(t, now); }
      }
    }
  }

  lemma ProcessKeepsPartial(fd: Partial, hdr: Header, body: seq<byte>, now: int)
    requires GoodHeader(hdr) && hdr.numFragments == |fd.fragments| >= 2
    ensures var r := ProcessFragment(fd, hdr, body, now); r.1.None? ==> PartialOk(r.0)
  {
    var fs := fd.fragments[hdr.fragment - 1 := Some(body)];
    assert fs[hdr.fragment - 1].Some?;
  }

  lemma SizeAfterAdding(t: Table, k: Key, fd: Partial)
    ensures |t[k := fd]| == if k in t then |t| else |t| + 1
  {
    assert t[k := fd].Keys == t.Keys + {k};
    if k in t { assert t.Keys + {k} == t.Keys; }
  }

  lemma OpenedSize(t: Table, p: Piece, now: int, evicted: set<Key>)
    requires |t| <= MAX_FRAMES && (p.key !in t && |t| >= MAX_FRAMES ==> Evicts(t, now, evicted))
    ensures |Opened(t, p, evicted)| <= MAX_FRAMES
  {
    var fd := Partial(Fresh(p.hdr.numFragments), 0);
    if p.key !in t {
      if |t| >= MAX_FRAMES {
        EvictionShrinks(t, now, evicted);
        SizeAfterAdding(t - evicted, p.key, fd);
      } else {
        SizeAfterAdding(t, p.key, fd);
      }
    }
  }

  lemma ReassembleKeepsTable(t: Table, p: Piece, now: int, evicted: set<Key>)
    requires TableOk(t) && GoodHeader(p.hdr)
    requires p.hdr.numFragments != 1 && p.key !in t && |t| >= MAX_FRAMES ==> Evicts(t, now, evicted)
    ensures TableOk(Reassemble(t, p, now, evicted).0)
  {
    if p.hdr.numFragments > 1 {
      var t1 := Opened(t, p, evicted);
      OpenedSize(t, p, now, evicted);
      SizeAfterAdding(t1, p.key, ProcessFragment(t1[p.key], p.hdr, p.body, now).0);
      if p.hdr.numFragments == |t1[p.key].fragments| { ProcessKeepsPartial(t1[p.key], p.hdr, p.body, now); }
      assert |(t1 - {p.key}).Keys| <= |t1.Keys|;
    }
  }

  /** The reassembly table, whatever arrives and in whatever order the table is walked: at
      most 16 partial frames, each with a fragment present and a fragment missing. */
  lemma {:induction false} TableStaysSmall(es: seq<Event>)
    requires Lawful(map[], es)
    ensures |Run(map[], es)| <= 16 && TableOk(Run(map[], es))
  {
    if es != [] {
      TableStaysSmall(es[..|es| - 1]);
      var e := es[|es| - 1];
      match Unwrap(e.packet) {
        case None =>
        case Some(p) => ReassembleKeepsTable(Run(map[], es[..|es| - 1]), p, e.now, e.evicted);
      }
    }
  }

  /** A partial frame leaves the table only when it is complete, or in a flush when 16 are held. */
  lemma {:induction false} PartialFramesStay(es: seq<Event>, e: Event, key: Key)
    requires Lawful(map[], es) && key in Run(map[], es) && key !in Receive(Run(map[], es), e).0
    ensures Unwrap(e.packet).Some?
    ensures if Unwrap(e.packet).value.key == key then Receive(Run(map[], es), e).1.Some?
            else |Run(map[], es)| == 16 && MakesRoom(Run(map[], es), e) && key in e.evicted
  {
    TableStaysSmall(es);
  }

  /** The packet is a fragment of a frame of n under the given key. */
  predicate Files(e: Event, key: Key, n: nat)
  {
    Unwrap(e.packet).Some? && Unwrap(e.packet).value.key == key && Unwrap(e.packet).value.hdr.numFragments == n
  }

  /** The time kept for a partial frame is that of the last fragment filed into it. */
  ghost predicate LastHeard(es: seq<Event>, key: Key, fd: Partial)
  {
    exists j :: 0 <= j < |es| && HeardAt(es, key, fd, j)
  }

  ghost predicate HeardAt(es: seq<Event>, key: Key, fd: Partial, j: nat)
    requires j < |es|
  {
    && Files(es[j], key, |fd.fragments|) && es[j].now == fd.lastRX
    && forall k | j < k < |es| :: !Files(es[k], key, |fd.fragments|)
  }

  /** What a step does to an entry: it is filed into now, or it is as it was and was not. */
  lemma StepHears(t: Table, e: Event, key: Key)
    requires TableOk(t) && key in Receive(t, e).0
    ensures var fd := Receive(t, e).0[key];
            if Files(e, key, |fd.fragments|) then fd.lastRX == e.now
            else key in t && fd == t[key]
  {
  }

  /** In every run, what decides eviction is when a fragment of the frame last arrived. */
  lemma {:induction false} TimesAreLastHeard(es: seq<Event>, key: Key)
    requires Lawful(map[], es) && key in Run(map[], es)
    ensures LastHeard(es, key, Run(map[], es)[key])
  {
    hide Files;
    if es != [] {
      var before, n := es[..|es| - 1], |es| - 1;
      TableStaysSmall(before);
      StepHears(Run(map[], before), es[n], key);
      var fd := Run(map[], es)[key];
      if Files(es[n], key, |fd.fragments|) {
        assert HeardAt(es, key, fd, n);
      } else {
        TimesAreLastHeard(before, key);
        var j :| 0 <= j < |before| && HeardAt(before, key, fd, j);
        assert forall k | 0 <= k < n :: before[k] == es[k];
        assert HeardAt(es, key, fd, j);
      }
    }
  }

  // ---------------------------------------------------------------- round trip

  /** The table entry that the fragments of one sent frame meet in. */
  function KeyOf(from: Ipx.Addr, id: u16): Key
  {
    Key(Ipx.HeaderAddr(Ipx.ZERO_NETWORK, from, IPX_SOCKET), id)
  }

  function PieceOf(from: Ipx.Addr, frame: seq<byte>, id: u16, i: nat): Piece
    requires i < NumFragments(|frame|) <= 255
  {
    Piece(KeyOf(from, id), Header(i + 1, NumFragments(|frame|), id), FragmentAt(frame, i))
  }

  /** A sent packet unwraps to its fragment, provided the fragment count fits its byte. */
  lemma WrappedUnwraps(from: Ipx.Addr, frame: seq<byte>, id: u16, i: nat)
    requires |frame| >= 6 && i < NumFragments(|frame|) <= 255
    ensures Unwrap(Wrapped(from, frame, id, i)) == Some(PieceOf(from, frame, id, i))
  {
    hide MarshalHeader, UnmarshalHeader, Trail;
    var hdr := Header(i + 1, NumFragments(|frame|), id);
    Layout(Trail(), MarshalHeader(hdr), FragmentAt(frame, i));
    HeaderRoundTrip(hdr, FragmentAt(frame, i));
  }

  lemma Layout(trail: seq<byte>, hdr: seq<byte>, body: seq<byte>)
    requires |trail| == TRAIL_BYTES && |hdr| == HEADER_LENGTH
    ensures (trail + hdr + body)[TRAIL_BYTES..] == hdr + body && (hdr + body)[HEADER_LENGTH..] == body
  {
  }

  /** The packet is a fragment that the table files under the given key. */
  predicate Concerns(p: Ipx.Packet, key: Key)
  {
    Unwrap(p).Some? && Unwrap(p).value.key == key && Unwrap(p).value.hdr.numFragments != 1
  }

  /** The fragments held for a frame of n: they accumulate until all are there, and the
      completed frame leaves nothing behind. */
  function Seen(es: seq<Event>, key: Key, n: nat): (s: set<int>)
  {
    if es == [] then {}
    else
      var before, p := Seen(es[..|es| - 1], key, n), es[|es| - 1].packet;
      if !Concerns(p, key) then before
      else
        var after := before + {Unwrap(p).value.hdr.fragment - 1};
        if after == Indices(n) then {} else after
  }

  function Indices(n: nat): (s: set<int>)
    ensures forall i :: i in s <==> 0 <= i < n
  {
    if n == 0 then {} else Indices(n - 1) + {n - 1}
  }

  /** Deliveries of the fragments of one sent frame, in any order and any number of times,
      amid any other packets; the frame is not evicted while it waits. */
  ghost predicate Deliveries(t: Table, es: seq<Event>, from: Ipx.Addr, frame: seq<byte>, id: u16)
    requires NumFragments(|frame|) <= 255
  {
    forall j | 0 <= j < |es| :: Delivery(Run(t, es[..j]), es[j], from, frame, id)
  }

  ghost predicate Delivery(t: Table, e: Event, from: Ipx.Addr, frame: seq<byte>, id: u16)
    requires NumFragments(|frame|) <= 255
  {
    && (Concerns(e.packet, KeyOf(from, id)) ==>
          exists i: nat | i < NumFragments(|frame|) :: Unwrap(e.packet) == Some(PieceOf(from, frame, id, i)))
    && (MakesRoom(t, e) ==> KeyOf(from, id) !in e.evicted)
  }

  /** The slots of a partial frame hold exactly the fragments seen. */
  ghost predicate Slots(fs: seq<Option<seq<byte>>>, frame: seq<byte>, seen: set<int>)
  {
    && |fs| == NumFragments(|frame|)
    && forall i | 0 <= i < |fs| :: fs[i] == if i in seen then Some(FragmentAt(frame, i)) else None
  }

  ghost predicate Holds(t: Table, key: Key, frame: seq<byte>, seen: set<int>)
  {
    && seen < Indices(NumFragments(|frame|))
    && (seen == {} ==> key !in t)
    && (seen != {} ==> key in t && Slots(t[key].fragments, frame, seen))
  }

  /** The frame, once every one of its fragments has been seen. */
  function Completed(frame: seq<byte>, seen: set<int>): Option<seq<byte>>
  {
    if seen == Indices(NumFragments(|frame|)) then Some(frame) else None
  }

  /** The outcome of holding the given fragments: the frame once they are all there. */
  ghost predicate Yields(r: (Table, Option<seq<byte>>), key: Key, frame: seq<byte>, seen: set<int>)
  {
    && r.1 == Completed(frame, seen)
    && Holds(r.0, key, frame, if Completed(frame, seen).Some? then {} else seen)
  }

  lemma SlotsComplete(fs: seq<Option<seq<byte>>>, frame: seq<byte>, seen: set<int>)
    requires Slots(fs, frame, seen) && seen <= Indices(|fs|)
    ensures Complete(fs) <==> seen == Indices(|fs|)
    ensures Complete(fs) ==> Flatten(Values(fs)) == frame
  {
    if seen == Indices(|fs|) {
      assert Values(fs) == Fragments(frame);
      FragmentsFlatten(frame);
    } else {
      var j :| j in Indices(|fs|) && j !in seen;
      assert fs[j] == None;
    }
  }

  lemma OpenedSlots(t: Table, p: Piece, evicted: set<Key>, frame: seq<byte>, seen: set<int>)
    requires p.hdr.numFragments == NumFragments(|frame|) && Holds(t, p.key, frame, seen)
    ensures Slots(Opened(t, p, evicted)[p.key].fragments, frame, seen)
  {
  }

  lemma PieceArrives(t: Table, p: Piece, now: int, evicted: set<Key>, frame: seq<byte>, seen: set<int>)
    requires GoodHeader(p.hdr) && p.hdr.numFragments == NumFragments(|frame|) >= 2
    requires p.body == FragmentAt(frame, p.hdr.fragment - 1) && Holds(t, p.key, frame, seen)
    ensures Yields(Reassemble(t, p, now, evicted), p.key, frame, seen + {p.hdr.fragment - 1})
  {
    hide Opened, Flatten;
    var fs0 := Opened(t, p, evicted)[p.key].fragments;
    OpenedSlots(t, p, evicted, frame, seen);
    var fs, seen' := fs0[p.hdr.fragment - 1 := Some(p.body)], seen + {p.hdr.fragment - 1};
    assert Slots(fs, frame, seen');
    SlotsComplete(fs, frame, seen');
    assert 0 in Indices(NumFragments(|frame|));
  }

  lemma OtherArrives(t: Table, e: Event, key: Key, frame: seq<byte>, seen: set<int>)
    requires Holds(t, key, frame, seen) && !Concerns(e.packet, key) && (MakesRoom(t, e) ==> key !in e.evicted)
    ensures Holds(Receive(t, e).0, key, frame, seen)
  {
  }

  lemma {:induction false} DeliveriesHold(t: Table, es: seq<Event>, from: Ipx.Addr, frame: seq<byte>, id: u16)
    requires 2 <= NumFragments(|frame|) <= 255
    requires KeyOf(from, id) !in t && Deliveries(t, es, from, frame, id)
    ensures Holds(Run(t, es), KeyOf(from, id), frame, Seen(es, KeyOf(from, id), NumFragments(|frame|)))
  {
    hide Concerns;
    var n := NumFragments(|frame|);
    if es == [] {
      assert 0 in Indices(n);
    } else {
      var before, e := es[..|es| - 1], es[|es| - 1];
      assert forall j | 0 <= j < |before| :: before[..j] == es[..j];
      DeliveriesHold(t, before, from, frame, id);
      DeliveryStep(Run(t, before), e, from, frame, id, Seen(before, KeyOf(from, id), n));
    }
  }

  lemma DeliveryStep(t: Table, e: Event, from: Ipx.Addr, frame: seq<byte>, id: u16, seen: set<int>)
    requires 2 <= NumFragments(|frame|) <= 255
    requires Holds(t, KeyOf(from, id), frame, seen) && Delivery(t, e, from, frame, id)
    ensures var key := KeyOf(from, id);
            if Concerns(e.packet, key)
            then Yields(Receive(t, e), key, frame, seen + {Unwrap(e.packet).value.hdr.fragment - 1})
            else Holds(Receive(t, e).0, key, frame, seen)
  {
    hide Holds, Yields, Reassemble;
    if Concerns(e.packet, KeyOf(from, id)) {
      var i: nat :| i < NumFragments(|frame|) && Unwrap(e.packet) == Some(PieceOf(from, frame, id, i));
      PieceArrives(t, Unwrap(e.packet).value, e.now, e.evicted, frame, seen);
    } else {
      OtherArrives(t, e, KeyOf(from, id), frame, seen);
    }
  }

  /** Round trip under reordering: each fragment of a frame of 2 to 255 fragments that arrives
      yields the frame itself if it was the last one missing, and nothing otherwise. */
  lemma {:induction false} FrameRoundTrip(t: Table, es: seq<Event>, e: Event, from: Ipx.Addr, frame: seq<byte>, id: u16)
    requires 2 <= NumFragments(|frame|) <= 255
    requires KeyOf(from, id) !in t && Deliveries(t, es + [e], from, frame, id)
    requires Concerns(e.packet, KeyOf(from, id))
    ensures var seen := Seen(es, KeyOf(from, id), NumFragments(|frame|));
            Receive(Run(t, es), e).1 == Completed(frame, seen + {Unwrap(e.packet).value.hdr.fragment - 1})
  {
    assert forall j | 0 <= j < |es| :: (es + [e])[..j] == es[..j] && (es + [e])[j] == es[j];
    assert (es + [e])[..|es|] == es && (es + [e])[|es|] == e;
    DeliveriesHold(t, es, from, frame, id);
    DeliveryStep(Run(t, es), e, from, frame, id, Seen(es, KeyOf(from, id), NumFragments(|frame|)));
  }

  // ---------------------------------------------------------------- frames that are too long

  const LONGEST := 255 * MAX_FRAGMENT_PAYLOAD

  /** No fragment held is longer than a sender makes them. */
  ghost predicate ShortSlots(fs: seq<Option<seq<byte>>>)
  {
    && |fs| <= 255
    && forall i | 0 <= i < |fs| && fs[i].Some? :: |fs[i].value| <= MAX_FRAGMENT_PAYLOAD
  }

  ghost predicate Short(t: Table)
  {
    forall k | k in t :: ShortSlots(t[k].fragments)
  }

  lemma {:induction false} FlattenLength(fs: seq<seq<byte>>)
    requires forall i | 0 <= i < |fs| :: |fs[i]| <= MAX_FRAGMENT_PAYLOAD
    ensures |Flatten(fs)| <= MAX_FRAGMENT_PAYLOAD * |fs|
  {
    if fs != [] { FlattenLength(fs[..|fs| - 1]); }
  }

  lemma ShortProcess(fd: Partial, hdr: Header, body: seq<byte>, now: int)
    requires GoodHeader(hdr) && ShortSlots(fd.fragments) && |body| <= MAX_FRAGMENT_PAYLOAD
    ensures var r := ProcessFragment(fd, hdr, body, now);
            ShortSlots(r.0.fragments) && (r.1.Some? ==> |r.1.value| <= LONGEST)
  {
    if hdr.numFragments == |fd.fragments| {
      var fs := fd.fragments[hdr.fragment - 1 := Some(body)];
      if Complete(fs) { FlattenLength(Values(fs)); }
    }
  }

  lemma ShortStep(t: Table, e: Event)
    requires Short(t) && |e.packet.payload| <= TRAIL_BYTES + HEADER_LENGTH + MAX_FRAGMENT_PAYLOAD
    ensures Short(Receive(t, e).0)
    ensures Receive(t, e).1.Some? ==> |Receive(t, e).1.value| <= LONGEST
  {
    match Unwrap(e.packet)
    case None =>
    case Some(p) =>
      if p.hdr.numFragments > 1 {
        var t1 := Opened(t, p, e.evicted);
        assert ShortSlots(Fresh(p.hdr.numFragments));
        ShortProcess(t1[p.key], p.hdr, p.body, e.now);
      }
  }

  lemma {:induction false} ShortRun(t: Table, es: seq<Event>)
    requires Short(t)
    requires forall e | e in es :: |e.packet.payload| <= TRAIL_BYTES + HEADER_LENGTH + MAX_FRAGMENT_PAYLOAD
    ensures Short(Run(t, es))
  {
    if es != [] {
      ShortRun(t, es[..|es| - 1]);
      ShortStep(Run(t, es[..|es| - 1]), es[|es| - 1]);
    }
  }

  /** All packets of the run were sent for the frame. */
  ghost predicate OnlyFrom(es: seq<Event>, from: Ipx.Addr, frame: seq<byte>, id: u16)
    requires |frame| >= 6
  {
    forall e | e in es :: exists i: nat | i < NumFragments(|frame|) :: e.packet == Wrapped(from, frame, id, i)
  }

  /** The frame can come out of some delivery of its own fragments. */
  ghost predicate Deliverable(from: Ipx.Addr, frame: seq<byte>, id: u16)
    requires |frame| >= 6
  {
    exists es, e :: OnlyFrom(es + [e], from, frame, id) && Receive(Run(map[], es), e).1 == Some(frame)
  }

  /** The fragments in order, all received at one time. */
  function InOrder(from: Ipx.Addr, frame: seq<byte>, id: u16, now: int, k: nat): (es: seq<Event>)
    requires |frame| >= 6 && k <= NumFragments(|frame|)
    ensures |es| == k
  {
    seq(k, i requires 0 <= i < k => Event(Wrapped(from, frame, id, i), now, {}))
  }

  lemma InOrderDelivers(t: Table, from: Ipx.Addr, frame: seq<byte>, id: u16, now: int, k: nat)
    requires |frame| >= 6 && k <= NumFragments(|frame|) <= 255
    ensures Deliveries(t, InOrder(from, frame, id, now, k), from, frame, id)
    ensures OnlyFrom(InOrder(from, frame, id, now, k), from, frame, id)
  {
    var es := InOrder(from, frame, id, now, k);
    forall j: nat | j < k
      ensures Unwrap(es[j].packet) == Some(PieceOf(from, frame, id, j)) && es[j].evicted == {}
      ensures es[j].packet == Wrapped(from, frame, id, j)
    {
      WrappedUnwraps(from, frame, id, j);
    }
  }

  lemma {:induction false} InOrderSeen(from: Ipx.Addr, frame: seq<byte>, id: u16, now: int, k: nat)
    requires |frame| >= 6 && 2 <= NumFragments(|frame|) <= 255 && k < NumFragments(|frame|)
    ensures Seen(InOrder(from, frame, id, now, k), KeyOf(from, id), NumFragments(|frame|)) == Indices(k)
  {
    hide Unwrap, FragmentAt;
    if k > 0 {
      InOrderSeen(from, frame, id, now, k - 1);
      var es := InOrder(from, frame, id, now, k);
      assert es[..k - 1] == InOrder(from, frame, id, now, k - 1);
      assert Unwrap(es[k - 1].packet) == Some(PieceOf(from, frame, id, k - 1)) by {
        WrappedUnwraps(from, frame, id, k - 1);
      }
      assert Indices(k - 1) + {k - 1} == Indices(k);
      assert k !in Indices(k) && k in Indices(NumFragments(|frame|));
    }
  }

  lemma InOrderSnoc(from: Ipx.Addr, frame: seq<byte>, id: u16, now: int, k: nat)
    requires |frame| >= 6 && k < NumFragments(|frame|)
    ensures InOrder(from, frame, id, now, k + 1)
         == InOrder(from, frame, id, now, k) + [Event(Wrapped(from, frame, id, k), now, {})]
  {
  }

  /** Fragments that arrive in order: the frame comes out with the last one, and only then. */
  lemma {:induction false} InOrderCompletes(t: Table, from: Ipx.Addr, frame: seq<byte>, id: u16, now: int, k: nat)
    requires |frame| >= 6 && k < NumFragments(|frame|) <= 255 && KeyOf(from, id) !in t
    ensures Receive(Run(t, InOrder(from, frame, id, now, k)), Event(Wrapped(from, frame, id, k), now, {})).1
         == if k + 1 == NumFragments(|frame|) then Some(frame) else None
  {
    hide Receive, Seen, Wrapped, FragmentAt;
    var n, es, e := NumFragments(|frame|), InOrder(from, frame, id, now, k), Event(Wrapped(from, frame, id, k), now, {});
    WrappedUnwraps(from, frame, id, k);
    if n == 1 {
      FragmentsAreRecognised(e.packet);
      WholeFramesPass(Run(t, es), e);
      OneFragment(frame);
    } else {
      InOrderSnoc(from, frame, id, now, k);
      InOrderDelivers(t, from, frame, id, now, k + 1);
      InOrderSeen(from, frame, id, now, k);
      FrameRoundTrip(t, es, e, from, frame, id);
      assert Indices(k) + {k} == Indices(k + 1);
      if k + 1 < n { assert k + 1 in Indices(n) && k + 1 !in Indices(k + 1); }
    }
  }

  /** With room in the table, none of them needs a flush. */
  lemma {:induction false} InOrderIsLawful(t: Table, from: Ipx.Addr, frame: seq<byte>, id: u16, now: int, k: nat)
    requires |frame| >= 6 && k <= NumFragments(|frame|) <= 255 && KeyOf(from, id) !in t && |t| < MAX_FRAMES
    ensures Lawful(t, InOrder(from, frame, id, now, k))
  {
    hide Receive, Seen, Wrapped, FragmentAt, Unwrap;
    if k > 0 {
      InOrderIsLawful(t, from, frame, id, now, k - 1);
      var es, e := InOrder(from, frame, id, now, k - 1), Event(Wrapped(from, frame, id, k - 1), now, {});
      InOrderSnoc(from, frame, id, now, k - 1);
      assert InOrder(from, frame, id, now, k)[..k - 1] == es;
      WrappedUnwraps(from, frame, id, k - 1);
      if k > 1 {
        InOrderDelivers(t, from, frame, id, now, k - 1);
        InOrderSeen(from, frame, id, now, k - 1);
        DeliveriesHold(t, es, from, frame, id);
        assert 0 in Indices(k - 1);
      }
    }
  }

  lemma OneFragment(frame: seq<byte>)
    requires NumFragments(|frame|) == 1
    ensures FragmentAt(frame, 0) == frame
  {
  }

  /** Exactly the frames of at most 255 fragments get through: a longer one never comes out,
      in whatever order and however often its fragments arrive. */
  lemma {:induction false} DeliverableWhenShort(from: Ipx.Addr, frame: seq<byte>, id: u16)
    requires |frame| >= 6
    ensures Deliverable(from, frame, id) <==> NumFragments(|frame|) <= 255
  {
    var n := NumFragments(|frame|);
    if n <= 255 {
      InOrderSnoc(from, frame, id, 0, n - 1);
      InOrderDelivers(map[], from, frame, id, 0, n);
      InOrderCompletes(map[], from, frame, id, 0, n - 1);
    } else {
      forall es, e | OnlyFrom(es + [e], from, frame, id) ensures Receive(Run(map[], es), e).1 != Some(frame) {
        assert forall e' | e' in es :: e' in es + [e];
        assert e in es + [e];
        ShortRun(map[], es);
        ShortStep(Run(map[], es), e);
      }
    }
  }
}
