/** The reliable message sharder of the Quake proxy: it receives one stop-and-wait stream of
    fragments from the upstream server and relays it as a second stop-and-wait stream whose
    fragments fit the MTU of the original game. */
module Sharder {
  import opened Bytes

  const RELIABLE_HEADER_LENGTH := 8
  const VANILLA_QUAKE_MTU := 1024
  const MAX_PAYLOAD := VANILLA_QUAKE_MTU - RELIABLE_HEADER_LENGTH

  const FLAG_DATA: u16 := 0x0001
  const FLAG_ACK: u16 := 0x0002
  const FLAG_EOM: u16 := 0x0008

  // Single bits of the flags word: flagData, flagAck, flagEOM and flagUnreliable.
  predicate DataBit(flags: u16) { flags % 2 == 1 }
  predicate AckBit(flags: u16) { flags / 0x0002 % 2 == 1 }
  predicate EomBit(flags: u16) { flags / 0x0008 % 2 == 1 }
  predicate UnreliableBit(flags: u16) { flags / 0x0010 % 2 == 1 }

  // ---------------------------------------------------------------- wire format

  datatype Message = Message(flags: u16, sequence: u32, payload: seq<byte>)

  predicate IsEom(m: Message) { EomBit(m.flags) }

  function Marshal(m: Message): (data: seq<byte>)
    ensures |data| == RELIABLE_HEADER_LENGTH + |m.payload|
  {
    PutBig16(m.flags)
    + PutBig16((RELIABLE_HEADER_LENGTH + |m.payload|) % 0x1_0000)
    + PutBig32(m.sequence)
    + m.payload
  }

  function Unmarshal(data: seq<byte>): (r: Option<Message>)
  {
    if |data| < RELIABLE_HEADER_LENGTH then None
    else Some(Message(Big16(data[0..2]), Big32(data[4..8]), data[8..]))
  }

  /** Both handlers read the flags of a packet before anything else. */
  type Packet = p: seq<byte> | |p| >= 2 witness [0, 0]

  function Flags(p: Packet): u16 { Big16(p[0..2]) }

  /** What the other side decodes is what was encoded. The length field is never read back. */
  lemma {:induction false} MessageRoundTrip(m: Message)
    ensures Unmarshal(Marshal(m)) == Some(m) && Flags(Marshal(m)) == m.flags
  {
    var data := Marshal(m);
    assert data[0..2] == PutBig16(m.flags);
    assert data[4..8] == PutBig32(m.sequence);
    assert data[8..] == m.payload;
    Big32RoundTrip(m.sequence);
  }

  /** The number that two bytes at an offset spell, the high one first. */
  function BigAt(data: seq<byte>, i: nat): int
    requires i + 2 <= |data|
  {
    (data[i] as int) * 256 + data[i + 1]
  }

  function LengthField(data: seq<byte>): int
    requires |data| >= 4
  {
    BigAt(data, 2)
  }

  /** The bytes of a message: flags, the length of the whole packet and the sequence number, all
      with the high byte first, and the payload. */
  lemma {:induction false} MessageLayout(m: Message)
    ensures var data := Marshal(m);
            && |data| == 8 + |m.payload| && data[8..] == m.payload
            && BigAt(data, 0) == m.flags
            && LengthField(data) == |data| % 0x1_0000
            && BigAt(data, 4) * 0x1_0000 + BigAt(data, 6) == m.sequence
  {
    var data, n := Marshal(m), 8 + |m.payload|;
    assert data[0..2] == PutBig16(m.flags) && data[2..4] == PutBig16(n % 0x1_0000);
    assert data[4..8] == PutBig32(m.sequence);
    assert data[0] == data[0..2][0] && data[1] == data[0..2][1];
    assert data[2] == data[2..4][0] && data[3] == data[2..4][1];
    forall i | 0 <= i < 4 ensures data[4 + i] == PutBig32(m.sequence)[i] {
      assert data[4 + i] == data[4..8][i];
    }
    assert data[4 + 0] == PutBig16(m.sequence / 0x1_0000)[0] && data[4 + 1] == PutBig16(m.sequence / 0x1_0000)[1];
    assert data[4 + 2] == PutBig16(m.sequence % 0x1_0000)[0] && data[4 + 3] == PutBig16(m.sequence % 0x1_0000)[1];
  }

  // ---------------------------------------------------------------- the protocol engine

  datatype Phase = Receiving | ReceivedEOM | SentEOM | EOMAcked

  /** The sharder's fields, followed by the history of one connection. */
  datatype Link = Link(
    phase: Phase,
    rxseq: u32, rxack: u32,     // from upstream
    txseq: u32, txack: u32,     // to downstream
    txqueue: seq<byte>,
    accepted: seq<Message>,     // fragments taken from upstream
    acks: seq<Message>,         // acks handed to txUpstream
    frags: seq<Message>,        // fragments handed to txDownstream
    acked: nat                  // downstream acks taken
  )

  const INITIAL := Link(Receiving, 0, 0, 0, 0, [], [], [], [], 0)

  datatype Outcome = Handled | NotOurs | Failed

  function SendNext(l: Link): Link
  {
    if l.txack != l.txseq || l.phase == SentEOM || l.phase == EOMAcked || l.txqueue == [] then l
    else
      var n := if MAX_PAYLOAD > |l.txqueue| then |l.txqueue| else MAX_PAYLOAD;
      var rest := l.txqueue[n..];
      var last := l.phase == ReceivedEOM && rest == [];
      l.(txqueue := rest,
         phase := if last then SentEOM else l.phase,
         txseq := Wrap32(l.txseq + 1),
         frags := l.frags + [Message(if last then FLAG_DATA + FLAG_EOM else FLAG_DATA, l.txseq, l.txqueue[..n])])
  }

  function SendAck(l: Link): Link
  {
    if l.rxseq == l.rxack then l
    else l.(rxack := l.rxseq, acks := l.acks + [Message(FLAG_ACK, Wrap32(l.rxseq - 1), [])])
  }

  /** A fragment that is next in sequence joins the queue; anything else is ignored. */
  function Accept(l: Link, rm: Message): Link
  {
    if rm.sequence != l.rxseq then l
    else
      var phase := if l.phase == EOMAcked then Receiving else l.phase;
      l.(phase := if IsEom(rm) && phase == Receiving then ReceivedEOM else phase,
         txqueue := l.txqueue + rm.payload,
         rxseq := Wrap32(l.rxseq + 1),
         accepted := l.accepted + [rm])
  }

  /** Acks upstream unless an end of message is being held back, then sends what it can. */
  function Respond(l: Link, ackOk: bool, nextOk: bool): (Link, Outcome)
  {
    var acking := (l.phase == Receiving || l.phase == EOMAcked) && l.rxseq != l.rxack;
    var l1 := if acking then SendAck(l) else l;
    if acking && !ackOk then (l1, Failed)
    else
      var l2 := SendNext(l1);
      (l2, if l2.frags != l1.frags && !nextOk then Failed else Handled)
  }

  /** receiveFromUpstream: ackOk and nextOk say whether the send callbacks succeed. */
  function FromUpstream(l: Link, p: Packet, ackOk: bool, nextOk: bool): (Link, Outcome)
  {
    if UnreliableBit(Flags(p)) || !DataBit(Flags(p)) then (l, NotOurs)
    else match Unmarshal(p)
      case None => (l, Failed)
      case Some(rm) => Respond(Accept(l, rm), ackOk, nextOk)
  }

  /** An ack of the oldest unacked fragment; anything else is ignored. */
  function TakeAck(l: Link): Link
  {
    l.(txack := Wrap32(l.txack + 1),
       acked := l.acked + 1,
       phase := if l.phase == SentEOM then EOMAcked else l.phase)
  }

  /** The ack of an end of message releases the ack upstream waits for; any other lets more go. */
  function Acked(l: Link): Link
  {
    if TakeAck(l).phase == EOMAcked then SendAck(TakeAck(l)) else SendNext(TakeAck(l))
  }

  /** receiveFromDownstream: sendOk says whether the one send callback it may use succeeds. */
  function FromDownstream(l: Link, p: Packet, sendOk: bool): (Link, Outcome)
  {
    if UnreliableBit(Flags(p)) || !AckBit(Flags(p)) then (l, NotOurs)
    else match Unmarshal(p)
      case None => (l, Failed)
      case Some(rm) =>
        if rm.sequence != l.txack then (l, Handled)
        else
          var l' := Acked(l);
          (l', if l' != TakeAck(l) && !sendOk then Failed else Handled)
  }

  datatype Event =
    | Upstream(packet: Packet, ackOk: bool, nextOk: bool)
    | Downstream(packet: Packet, sendOk: bool)

  function Step(l: Link, e: Event): Link
  {
    match e
    case Upstream(p, ackOk, nextOk) => FromUpstream(l, p, ackOk, nextOk).0
    case Downstream(p, sendOk) => FromDownstream(l, p, sendOk).0
  }

  function Run(es: seq<Event>): Link
  {
    if es == [] then INITIAL else Step(Run(es[..|es| - 1]), es[|es| - 1])
  }

  /** The packets the handlers act on: data fragments and acks that can be decoded. */
  predicate IsData(p: Packet) { !UnreliableBit(Flags(p)) && DataBit(Flags(p)) && |p| >= RELIABLE_HEADER_LENGTH }

  predicate IsAck(p: Packet) { !UnreliableBit(Flags(p)) && AckBit(Flags(p)) && |p| >= RELIABLE_HEADER_LENGTH }

  function Decoded(p: Packet): Message
    requires |p| >= RELIABLE_HEADER_LENGTH
  {
    Unmarshal(p).value
  }

  /** All other packets leave the link as it is. */
  lemma StepCases(l: Link, e: Event)
    ensures Step(l, e) ==
            match e
            case Upstream(p, ackOk, nextOk) =>
              if IsData(p) then Respond(Accept(l, Decoded(p)), ackOk, nextOk).0 else l
            case Downstream(p, _) =>
              if IsAck(p) && Decoded(p).sequence == l.txack then Acked(l) else l
  {
  }

  lemma RunSnoc(es: seq<Event>, e: Event)
    ensures Run(es + [e]) == Step(Run(es), e)
  {
    assert (es + [e])[..|es|] == es;
  }

  /** What the handlers report: a packet that is not theirs changes nothing and is to be passed
      on; an error means a packet too short to decode, which changes nothing either, or a send
      that was made and failed. */
  lemma OutcomesMean(l: Link, e: Event)
    ensures var p, up := e.packet, e.Upstream?;
            var (l', r) := if up then FromUpstream(l, p, e.ackOk, e.nextOk) else FromDownstream(l, p, e.sendOk);
            var ours := p[1] / 16 % 2 == 0 && (if up then p[1] % 2 == 1 else p[1] / 2 % 2 == 1);
            var ackFailed := |l'.acks| > |l.acks| && !(if up then e.ackOk else e.sendOk);
            var nextFailed := |l'.frags| > |l.frags| && !(if up then e.nextOk else e.sendOk);
            && (r == NotOurs <==> !ours)
            && (r == Failed <==> ours && (|p| < RELIABLE_HEADER_LENGTH || ackFailed || nextFailed))
            && (!ours || |p| < RELIABLE_HEADER_LENGTH ==> l' == l)
            && (up && ackFailed ==> l'.frags == l.frags)
  {
    LowByteDecides(e.packet);
  }

  /** The bits that the handlers look at are in the second byte. */
  lemma LowByteDecides(p: Packet)
    ensures DataBit(Flags(p)) <==> p[1] % 2 == 1
    ensures AckBit(Flags(p)) <==> p[1] / 2 % 2 == 1
    ensures EomBit(Flags(p)) <==> p[1] / 8 % 2 == 1
    ensures UnreliableBit(Flags(p)) <==> p[1] / 16 % 2 == 1
  {
    var high, low := p[0] as int, p[1] as int;
    assert Flags(p) == high * 256 + low;
    assert (high * 256 + low) / 2 == high * 128 + low / 2;
    assert (high * 256 + low) / 8 == high * 32 + low / 8;
    assert (high * 256 + low) / 16 == high * 16 + low / 16;
    EvenPart(high * 64, low / 2);
    EvenPart(high * 16, low / 8);
    EvenPart(high * 8, low / 16);
    EvenPart(high * 128, low);
  }

  lemma EvenPart(k: int, n: int)
    ensures (2 * k + n) % 2 == n % 2
  {
  }

  // ---------------------------------------------------------------- conservation, for arbitrary peers

  function Payloads(ms: seq<Message>): seq<byte>
  {
    if ms == [] then [] else Payloads(ms[..|ms| - 1]) + ms[|ms| - 1].payload
  }

  lemma PayloadsSnoc(ms: seq<Message>, m: Message)
    ensures Payloads(ms + [m]) == Payloads(ms) + m.payload
  {
    assert (ms + [m])[..|ms|] == ms;
  }

  /** Consecutive sequence numbers, starting at zero and wrapping at 32 bits. */
  ghost predicate Numbered(ms: seq<Message>)
  {
    forall i | 0 <= i < |ms| :: ms[i].sequence == Wrap32(i)
  }

  lemma NumberedSnoc(ms: seq<Message>, m: Message)
    requires Numbered(ms) && m.sequence == Wrap32(|ms|)
    ensures Numbered(ms + [m]) && Wrap32(|ms + [m]|) == Wrap32(m.sequence + 1)
  {
    NextCounter(|ms|);
  }

  ghost predicate FragmentOk(f: Message)
  {
    && (f.flags == FLAG_DATA || f.flags == FLAG_DATA + FLAG_EOM)
    && 0 < |f.payload| <= MAX_PAYLOAD
  }

  ghost predicate BytesKept(l: Link)
  {
    Payloads(l.accepted) == Payloads(l.frags) + l.txqueue
  }

  ghost predicate FragmentsKept(l: Link)
  {
    && (forall i | 0 <= i < |l.frags| :: FragmentOk(l.frags[i]))
    && Numbered(l.frags) && l.txseq == Wrap32(|l.frags|)
    && Numbered(l.accepted) && l.rxseq == Wrap32(|l.accepted|)
  }

  ghost predicate Conserved(l: Link)
  {
    BytesKept(l) && FragmentsKept(l)
  }

  lemma SendNextKeepsBytes(l: Link)
    requires BytesKept(l)
    ensures BytesKept(SendNext(l))
  {
    var l' := SendNext(l);
    if l' != l {
      var f := l'.frags[|l.frags|];
      assert l'.frags == l.frags + [f];
      PayloadsSnoc(l.frags, f);
      assert l.txqueue == f.payload + l'.txqueue;
      assert Payloads(l.frags) + l.txqueue == Payloads(l.frags) + f.payload + l'.txqueue;
    }
  }

  lemma SendNextConserves(l: Link)
    requires Conserved(l)
    ensures Conserved(SendNext(l))
  {
    SendNextKeepsBytes(l);
    var l' := SendNext(l);
    if l' != l {
      var f := l'.frags[|l.frags|];
      assert l'.frags == l.frags + [f];
      NumberedSnoc(l.frags, f);
    }
  }

  lemma AcceptConserves(l: Link, rm: Message)
    requires Conserved(l)
    ensures Conserved(Accept(l, rm))
  {
    hide Payloads, Numbered, Wrap32, FragmentOk;
    if rm.sequence == l.rxseq {
      PayloadsSnoc(l.accepted, rm);
      NumberedSnoc(l.accepted, rm);
      assert Payloads(l.frags) + l.txqueue + rm.payload == Payloads(l.frags) + (l.txqueue + rm.payload);
    }
  }

  lemma RespondConserves(l: Link, ackOk: bool, nextOk: bool)
    requires Conserved(l)
    ensures Conserved(Respond(l, ackOk, nextOk).0)
  {
    SendNextConserves(l);
    SendNextConserves(SendAck(l));
  }

  lemma StepConserves(l: Link, e: Event)
    requires Conserved(l)
    ensures Conserved(Step(l, e))
  {
    hide Step, Conserved;
    StepCases(l, e);
    match e
    case Upstream(p, ackOk, nextOk) =>
      if IsData(p) {
        AcceptConserves(l, Decoded(p));
        RespondConserves(Accept(l, Decoded(p)), ackOk, nextOk);
      }
    case Downstream(p, sendOk) =>
      AckedConserves(l);
  }

  lemma AckedConserves(l: Link)
    requires Conserved(l)
    ensures Conserved(Acked(l))
  {
    SendNextConserves(TakeAck(l));
  }

  /** Byte conservation: whatever either side sends, every accepted byte is either in a
      downstream fragment or still queued, in order; fragments are consecutively numbered,
      never empty, and fit the MTU once encoded. */
  lemma {:induction false} BytesConserved(es: seq<Event>)
    ensures Payloads(Run(es).accepted) == Payloads(Run(es).frags) + Run(es).txqueue
    ensures Numbered(Run(es).frags) && Numbered(Run(es).accepted)
    ensures forall f | f in Run(es).frags :: f.payload != [] && |Marshal(f)| <= VANILLA_QUAKE_MTU
    ensures Conserved(Run(es))
  {
    if es != [] {
      BytesConserved(es[..|es| - 1]);
      StepConserves(Run(es[..|es| - 1]), es[|es| - 1]);
    }
    assert forall f | f in Run(es).frags :: FragmentOk(f);
  }

  ghost predicate PlainAcks(l: Link)
  {
    forall i | 0 <= i < |l.acks| :: l.acks[i].flags == 2 && l.acks[i].payload == []
  }

  lemma {:induction false} AcksArePlain(es: seq<Event>)
    ensures PlainAcks(Run(es))
  {
    if es != [] {
      AcksArePlain(es[..|es| - 1]);
      StepCases(Run(es[..|es| - 1]), es[|es| - 1]);
    }
  }

  /** In every run, whatever either side sends, each packet handed to a callback carries its own
      length: acks are bare headers with flag 2, and fragments fit the MTU and have flag 1, and flag
      8 if they end a message. */
  lemma {:induction false} PacketsCarryTheirLength(es: seq<Event>, i: nat)
    ensures i < |Run(es).acks| ==>
              var p := Marshal(Run(es).acks[i]); |p| == 8 && LengthField(p) == 8 && BigAt(p, 0) == 2
    ensures i < |Run(es).frags| ==>
              var p, f := Marshal(Run(es).frags[i]), Run(es).frags[i];
              && 8 < |p| <= 1024 && LengthField(p) == |p|
              && BigAt(p, 0) == if IsEom(f) then 9 else 1
  {
    hide Run, Marshal, LengthField, BigAt, Payloads, Numbered, BytesKept;
    AcksArePlain(es);
    BytesConserved(es);
    if i < |Run(es).acks| { MessageLayout(Run(es).acks[i]); }
    if i < |Run(es).frags| {
      assert FragmentOk(Run(es).frags[i]);
      MessageLayout(Run(es).frags[i]);
    }
  }

  /** No fragment is cut short: a packet from either side sends at most one, and that one is full
      or leaves nothing behind. */
  lemma {:induction false} FragmentsAreFull(l: Link, e: Event)
    ensures var l' := Step(l, e);
            && |l.frags| <= |l'.frags| <= |l.frags| + 1
            && (|l.frags| < |l'.frags| ==> |l'.frags[|l.frags|].payload| == 1016 || l'.txqueue == [])
  {
    hide Step, Decoded;
    StepCases(l, e);
  }
}
