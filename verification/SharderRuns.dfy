/** What the sharder guarantees over whole runs to peers that keep the protocol: message
    boundaries, the coupling of the two ack streams, and how a held message drains. */
module SharderRuns {
  import opened Bytes
  import opened Sharder

  // ---------------------------------------------------------------- messages

  /** The bytes since the last end of message, and the messages completed before it. */
  function Pending(ms: seq<Message>): seq<byte>
  {
    if ms == [] || IsEom(ms[|ms| - 1]) then []
    else Pending(ms[..|ms| - 1]) + ms[|ms| - 1].payload
  }

  function Messages(ms: seq<Message>): seq<seq<byte>>
  {
    if ms == [] then []
    else
      var init, m := ms[..|ms| - 1], ms[|ms| - 1];
      if IsEom(m) then Messages(init) + [Pending(init) + m.payload] else Messages(init)
  }

  lemma MessagesSnoc(ms: seq<Message>, m: Message)
    ensures Messages(ms + [m]) == if IsEom(m) then Messages(ms) + [Pending(ms) + m.payload] else Messages(ms)
    ensures Pending(ms + [m]) == if IsEom(m) then [] else Pending(ms) + m.payload
  {
    assert (ms + [m])[..|ms|] == ms;
  }

  // ---------------------------------------------------------------- honest peers

  /** A fragment sent ahead of the held-back ack that spoils a message: bytes behind an end of
      message still in the queue, or a second end of message before the first is acked. A queue
      that was already empty at its end of message never moves again, so that an end of message
      without bytes changes nothing there. */
  predicate Harmful(l: Link, rm: Message)
  {
    && rm.sequence == l.rxseq
    && match l.phase
       case Receiving => false
       case ReceivedEOM => rm.payload != [] || (IsEom(rm) && l.txqueue != [])
       case SentEOM => IsEom(rm)
       case EOMAcked => false
  }

  /** An upstream that sends nothing harmful, and a downstream that acks nothing it was not sent. */
  predicate Honest(l: Link, e: Event)
  {
    match e
    case Upstream(p, _, _) => IsData(p) ==> !Harmful(l, Decoded(p))
    case Downstream(p, _) => IsAck(p) && Decoded(p).sequence == l.txack ==> l.acked < |l.frags|
  }

  predicate HonestRun(es: seq<Event>)
  {
    es == [] || (HonestRun(es[..|es| - 1]) && Honest(Run(es[..|es| - 1]), es[|es| - 1]))
  }

  /** The counters agree with the history, and at most one fragment is unacked downstream. */
  ghost predicate TxInv(l: Link)
  {
    && l.txseq == Wrap32(|l.frags|)
    && l.txack == Wrap32(l.acked)
    && l.acked <= |l.frags| <= l.acked + 1
  }

  /** What holds between the two streams in each phase. */
  ghost predicate PhaseInv(l: Link)
  {
    var up, down := Messages(l.accepted), Messages(l.frags);
    match l.phase
    case Receiving =>
      && up == down
      && Pending(l.accepted) == Pending(l.frags) + l.txqueue
    case ReceivedEOM =>
      && Pending(l.accepted) == []
      && down + [Pending(l.frags) + l.txqueue] <= up
      && (l.txqueue != [] ==> |up| == |down| + 1)
    case SentEOM =>
      && up == down
      && Pending(l.frags) == [] && Pending(l.accepted) == l.txqueue
      && l.acked + 1 == |l.frags| && IsEom(l.frags[l.acked])
    case EOMAcked =>
      && up == down
      && Pending(l.frags) == [] && Pending(l.accepted) == l.txqueue
      && l.acked == |l.frags|
  }

  /** Only the end of a message is acked late, and no other fragment is an end of message. */
  ghost predicate AckInv(l: Link)
  {
    && (l.phase == Receiving || l.phase == EOMAcked ==> l.rxack == l.rxseq)
    && (l.phase == Receiving || l.phase == ReceivedEOM ==> l.acked < |l.frags| ==> !IsEom(l.frags[l.acked]))
  }

  ghost predicate HonestInv(l: Link)
  {
    TxInv(l) && PhaseInv(l) && AckInv(l)
  }

  /** Bytes that no ack from downstream will set going. */
  predicate Waiting(l: Link)
  {
    l.txqueue != [] && l.acked == |l.frags|
  }

  /** Everything sent is acked exactly when the two counters agree. */
  lemma TxTells(l: Link)
    requires TxInv(l)
    ensures l.txack == l.txseq <==> l.acked == |l.frags|
  {
  }

  /** SendNext does nothing, or cuts one fragment off the queue. */
  lemma SendNextSends(l: Link)
    requires TxInv(l)
    ensures var l' := SendNext(l);
            var held := l.phase == ReceivedEOM || l.phase == Receiving;
            && TxInv(l') && l'.accepted == l.accepted && l'.acks == l.acks && l'.acked == l.acked
            && l'.rxseq == l.rxseq && l'.rxack == l.rxack
            && (held && Waiting(l) <==> l' != l)
            && (held && Waiting(l) ==>
                  && |l'.frags| == |l.frags| + 1 && l'.frags == l.frags + [l'.frags[|l.frags|]]
                  && l.txqueue == l'.frags[|l.frags|].payload + l'.txqueue && |l'.txqueue| < |l.txqueue|
                  && (IsEom(l'.frags[|l.frags|]) <==> l.phase == ReceivedEOM && l'.txqueue == [])
                  && l'.phase == (if IsEom(l'.frags[|l.frags|]) then SentEOM else l.phase))
  {
    TxTells(l);
    NextCounter(|l.frags|);
  }

  lemma FragmentKeepsPhase(l: Link, l': Link, f: Message)
    requires PhaseInv(l) && (l.phase == Receiving || l.phase == ReceivedEOM) && l.acked == |l.frags|
    requires l.txqueue != [] && l'.frags == l.frags + [f] && l.txqueue == f.payload + l'.txqueue
    requires l'.accepted == l.accepted && l'.acked == l.acked
    requires IsEom(f) <==> l.phase == ReceivedEOM && l'.txqueue == []
    requires l'.phase == if IsEom(f) then SentEOM else l.phase
    ensures PhaseInv(l')
  {
    hide Messages, Pending;
    MessagesSnoc(l.frags, f);
    assert Pending(l.frags) + l.txqueue == Pending(l.frags) + f.payload + l'.txqueue;
    if IsEom(f) { assert l.txqueue == f.payload; }
  }

  lemma SendNextKeeps(l: Link)
    requires HonestInv(l)
    ensures HonestInv(SendNext(l)) && (l.phase == EOMAcked || !Waiting(SendNext(l)))
  {
    hide SendNext, Messages, Pending;
    SendNextSends(l);
    var l' := SendNext(l);
    if l' != l { FragmentKeepsPhase(l, l', l'.frags[|l.frags|]); }
  }

  /** What a harmless fragment does before it is acked. */
  lemma AcceptKeepsPhase(l: Link, rm: Message)
    requires PhaseInv(l) && !Harmful(l, rm)
    ensures PhaseInv(Accept(l, rm))
  {
    hide Wrap32, Messages, Pending;
    MessagesSnoc(l.accepted, rm);
    assert Pending(l.frags) + l.txqueue + rm.payload == Pending(l.frags) + (l.txqueue + rm.payload);
    assert l.txqueue + [] == l.txqueue && [] + rm.payload == rm.payload;
    assert [] + l.txqueue == l.txqueue && [] + (l.txqueue + rm.payload) == l.txqueue + rm.payload;
  }

  lemma SendAckKeepsPhase(l: Link)
    requires PhaseInv(l) && TxInv(l)
    ensures PhaseInv(SendAck(l)) && TxInv(SendAck(l)) && SendAck(l).rxack == SendAck(l).rxseq
  {
  }

  lemma UpstreamKeeps(l: Link, rm: Message, ackOk: bool, nextOk: bool)
    requires HonestInv(l) && !Harmful(l, rm)
    ensures HonestInv(Respond(Accept(l, rm), ackOk, nextOk).0)
  {
    hide SendNext, Harmful, Messages, Pending;
    AcceptKeepsPhase(l, rm);
    var l1 := Accept(l, rm);
    SendAckKeepsPhase(l1);
    SendNextKeeps(if (l1.phase == Receiving || l1.phase == EOMAcked) && l1.rxseq != l1.rxack then SendAck(l1) else l1);
  }

  lemma DownstreamKeeps(l: Link)
    requires HonestInv(l) && l.acked < |l.frags|
    ensures HonestInv(Acked(l)) && (l.phase == SentEOM || !Waiting(Acked(l)))
  {
    hide SendNext, Messages, Pending;
    NextCounter(l.acked);
    var l1 := TakeAck(l);
    if l.phase == SentEOM { SendAckKeepsPhase(l1); } else { SendNextKeeps(l1); }
  }

  lemma StepKeeps(l: Link, e: Event)
    requires HonestInv(l) && Honest(l, e)
    ensures HonestInv(Step(l, e))
  {
    hide Step, HonestInv, Harmful, Accept, Respond, Acked, Decoded;
    StepCases(l, e);
    match e
    case Upstream(p, ackOk, nextOk) => if IsData(p) { UpstreamKeeps(l, Decoded(p), ackOk, nextOk); }
    case Downstream(p, _) => if IsAck(p) && Decoded(p).sequence == l.txack { DownstreamKeeps(l); }
  }

  lemma {:induction false} HonestRunInv(es: seq<Event>)
    requires HonestRun(es)
    ensures HonestInv(Run(es))
  {
    if es != [] {
      HonestRunInv(es[..|es| - 1]);
      StepKeeps(Run(es[..|es| - 1]), es[|es| - 1]);
    }
  }

  /** Message boundaries survive re-sharding: the messages sent downstream are the first of the
      messages received upstream, byte for byte. At most the newest one is missing, unless the
      link is stuck on an end of message without bytes. */
  lemma {:induction false} MessageBoundariesSurvive(es: seq<Event>)
    requires HonestRun(es)
    ensures Messages(Run(es).frags) <= Messages(Run(es).accepted)
    ensures (Run(es).phase == ReceivedEOM ==> Run(es).txqueue != []) ==>
              |Messages(Run(es).accepted)| <= |Messages(Run(es).frags)| + 1
  {
    HonestRunInv(es);
  }

  // ---------------------------------------------------------------- fragments sent ahead

  /** Downstream has been sent a message that upstream did not send. */
  predicate Broken(l: Link)
  {
    !(Messages(l.frags) <= Messages(l.accepted))
  }

  function After(l: Link, es: seq<Event>): Link
    decreases |es|
  {
    if es == [] then l else After(Step(l, es[0]), es[1..])
  }

  predicate HonestAfter(l: Link, es: seq<Event>)
    decreases |es|
  {
    es == [] || (Honest(l, es[0]) && HonestAfter(Step(l, es[0]), es[1..]))
  }

  /** Some honest continuation breaks a message. */
  ghost predicate CanBreak(l: Link)
  {
    exists more :: HonestAfter(l, more) && Broken(After(l, more))
  }

  lemma BrokenCanBreak(l: Link)
    requires Broken(l)
    ensures CanBreak(l)
  {
    assert HonestAfter(l, []) && Broken(After(l, []));
  }

  lemma StepBack(l: Link, e: Event)
    requires Honest(l, e) && CanBreak(Step(l, e))
    ensures CanBreak(l)
  {
    var more :| HonestAfter(Step(l, e), more) && Broken(After(Step(l, e), more));
    assert ([e] + more)[1..] == more;
    assert HonestAfter(l, [e] + more) && Broken(After(l, [e] + more));
  }

  /** An ack of the oldest unacked fragment, as a vanilla client sends it. */
  function InOrderAck(l: Link): Event
  {
    Downstream(Marshal(Message(FLAG_ACK, l.txack, [])), true)
  }

  lemma InOrderAckStep(l: Link)
    ensures Step(l, InOrderAck(l)) == Acked(l)
    ensures l.acked < |l.frags| ==> Honest(l, InOrderAck(l))
  {
    MessageRoundTrip(Message(FLAG_ACK, l.txack, []));
  }

  /** A one-byte message sent whole by upstream, and the packet that carries it. */
  function OneByte(k: u32, b: byte): Message { Message(FLAG_DATA + FLAG_EOM, k, [b]) }

  function OneBytePacket(k: u32, b: byte): Event { Upstream(Marshal(OneByte(k, b)), true, true) }

  lemma OneByteStep(l: Link, k: u32, b: byte)
    ensures Step(l, OneBytePacket(k, b)) == Respond(Accept(l, OneByte(k, b)), true, true).0
    ensures !Harmful(l, OneByte(k, b)) ==> Honest(l, OneBytePacket(k, b))
  {
    MessageRoundTrip(OneByte(k, b));
  }

  /** The message being sent is not the one that upstream sent in its place. */
  ghost predicate Spoilt(l: Link)
  {
    var n := |Messages(l.frags)|;
    n < |Messages(l.accepted)| && Messages(l.accepted)[n] != Pending(l.frags) + l.txqueue
  }

  /** The message after the one being sent is empty, and its end of message was missed. */
  ghost predicate Owed(l: Link)
  {
    var n := |Messages(l.frags)| + 1;
    n < |Messages(l.accepted)| && Messages(l.accepted)[n] == []
  }

  /** Cutting off a fragment keeps what is wrong, until the last one breaks or owes a message. */
  lemma FragmentKeepsFault(l: Link)
    requires TxInv(l) && l.phase == ReceivedEOM && Waiting(l)
    ensures var l' := SendNext(l);
            if l'.phase == SentEOM
            then (Spoilt(l) ==> Broken(l')) && (Owed(l) ==> MissedEom(l'))
            else l'.phase == ReceivedEOM && (Spoilt(l) ==> Spoilt(l')) && (Owed(l) ==> Owed(l'))
  {
    hide SendNext, Messages, Pending;
    SendNextSends(l);
    var l' := SendNext(l);
    var f := l'.frags[|l.frags|];
    MessagesSnoc(l.frags, f);
    assert Pending(l.frags) + l.txqueue == Pending(l.frags) + f.payload + l'.txqueue;
    if IsEom(f) {
      assert l.txqueue == f.payload && [] + l'.txqueue == [];
    }
  }

  /** The whole message is sent, and upstream has ended the next one with the bytes now queued. */
  ghost predicate MissedEom(l: Link)
  {
    && l.phase == SentEOM && l.acked < |l.frags| && Pending(l.frags) == []
    && |Messages(l.frags)| < |Messages(l.accepted)|
    && Messages(l.accepted)[|Messages(l.frags)|] == l.txqueue
  }

  lemma {:induction false} SpoiltBreaks(l: Link)
    requires TxInv(l) && l.phase == ReceivedEOM && l.txqueue != [] && Spoilt(l)
    ensures CanBreak(SendNext(l))
    decreases |l.txqueue|, |l.frags| - l.acked
  {
    hide SendNext, Spoilt, Owed, Broken, CanBreak, Honest, Step, InOrderAck;
    SendNextSends(l);
    if l.acked == |l.frags| {
      FragmentKeepsFault(l);
      var l' := SendNext(l);
      if l'.phase == SentEOM {
        BrokenCanBreak(l');
      } else {
        SendNextSends(l');
        SpoiltBreaks(l');
      }
    } else {
      AckTaken(l);
      SpoiltBreaks(TakeAck(l));
      StepBack(l, InOrderAck(l));
    }
  }

  lemma AckTaken(l: Link)
    requires TxInv(l) && l.phase == ReceivedEOM && l.acked < |l.frags|
    ensures TxInv(TakeAck(l)) && Step(l, InOrderAck(l)) == SendNext(TakeAck(l)) && Honest(l, InOrderAck(l))
    ensures (Spoilt(l) ==> Spoilt(TakeAck(l))) && (Owed(l) ==> Owed(TakeAck(l)))
  {
    NextCounter(l.acked);
    InOrderAckStep(l);
  }

  lemma {:induction false} OwedBreaks(l: Link)
    requires TxInv(l) && l.phase == ReceivedEOM && l.txqueue != [] && Owed(l)
    ensures CanBreak(SendNext(l))
    decreases |l.txqueue|, |l.frags| - l.acked
  {
    hide SendNext, Spoilt, Owed, Broken, CanBreak, Honest, Step, InOrderAck, MissedEom;
    SendNextSends(l);
    if l.acked == |l.frags| {
      FragmentKeepsFault(l);
      var l' := SendNext(l);
      if l'.phase == SentEOM {
        MissedEomBreaks(l');
      } else {
        SendNextSends(l');
        OwedBreaks(l');
      }
    } else {
      AckTaken(l);
      OwedBreaks(TakeAck(l));
      StepBack(l, InOrderAck(l));
    }
  }

  /** Once the end of message is acked, one more message is merged into the missed one. */
  lemma MissedEomBreaks(l: Link)
    requires TxInv(l) && MissedEom(l)
    ensures CanBreak(l)
  {
    hide SendNext, Spoilt, Owed, Broken, CanBreak, Honest, Step, InOrderAck, OneBytePacket;
    var l1 := Acked(l);
    InOrderAckStep(l);
    var e := OneBytePacket(l1.rxseq, 0);
    OneByteStep(l1, l1.rxseq, 0);
    MergedAfter(l, l1);
    SpoiltBreaks(Accept(l1, OneByte(l1.rxseq, 0)));
    StepBack(l1, e);
    StepBack(l, InOrderAck(l));
  }

  lemma MergedAfter(l: Link, l1: Link)
    requires TxInv(l) && MissedEom(l) && l1 == Acked(l)
    ensures l1.phase == EOMAcked
    ensures var l2 := Accept(l1, OneByte(l1.rxseq, 0));
            l2.phase == ReceivedEOM && l2.txqueue != [] && TxInv(l2) && Spoilt(l2)
  {
    hide Messages, Pending;
    NextCounter(l.acked);
    MessagesSnoc(l1.accepted, OneByte(l1.rxseq, 0));
    var l2 := Accept(l1, OneByte(l1.rxseq, 0));
    assert |Pending(l2.frags) + l2.txqueue| == |l.txqueue| + 1;
  }

  /** A harmful fragment spoils the message being sent or has its end of message missed. */
  lemma HarmDone(l: Link, rm: Message)
    requires HonestInv(l) && Harmful(l, rm)
    ensures var l1 := Accept(l, rm);
            && TxInv(l1)
            && (l.phase == ReceivedEOM ==> l1.phase == ReceivedEOM && l1.txqueue != [] && (Spoilt(l1) || Owed(l1)))
            && (l.phase != ReceivedEOM ==> l1.phase == SentEOM && MissedEom(l1))
  {
    hide Messages, Pending, Wrap32;
    var l1 := Accept(l, rm);
    MessagesSnoc(l.accepted, rm);
    if l.phase == ReceivedEOM && rm.payload != [] {
      var n := |Messages(l.frags)|;
      assert Messages(l.accepted)[n] == (Messages(l.frags) + [Pending(l.frags) + l.txqueue])[n];
      assert |Pending(l1.frags) + l1.txqueue| == |Pending(l.frags) + l.txqueue| + |rm.payload|;
      assert Messages(l1.accepted)[n] == Messages(l.accepted)[n];
    }
  }

  lemma HarmfulBreaks(l: Link, rm: Message, ackOk: bool, nextOk: bool)
    requires HonestInv(l) && Harmful(l, rm)
    ensures CanBreak(Respond(Accept(l, rm), ackOk, nextOk).0)
  {
    hide Accept, Spoilt, Owed, MissedEom, CanBreak, HonestInv, Harmful, Messages;
    HarmDone(l, rm);
    var l1 := Accept(l, rm);
    if l.phase != ReceivedEOM {
      MissedEomBreaks(l1);
    } else if Spoilt(l1) {
      SpoiltBreaks(l1);
    } else {
      OwedBreaks(l1);
    }
  }

  lemma {:induction false} HonestAfterKeeps(l: Link, more: seq<Event>)
    requires HonestInv(l) && HonestAfter(l, more)
    ensures HonestInv(After(l, more))
    decreases |more|
  {
    if more != [] {
      StepKeeps(l, more[0]);
      HonestAfterKeeps(Step(l, more[0]), more[1..]);
    }
  }

  lemma HonestCannotBreak(l: Link)
    requires HonestInv(l)
    ensures !CanBreak(l)
  {
    forall more | HonestAfter(l, more) ensures !Broken(After(l, more)) {
      HonestAfterKeeps(l, more);
    }
  }

  /** Exactly the harmful fragments break message boundaries: after any honest run and any data
      packet, peers that are honest from then on can have downstream sent a message that upstream
      did not send if and only if the packet was harmful. */
  lemma {:induction false} ExactlyHarmfulBreaks(es: seq<Event>, e: Event)
    requires HonestRun(es) && e.Upstream? && IsData(e.packet)
    ensures CanBreak(Step(Run(es), e)) <==> Harmful(Run(es), Decoded(e.packet))
  {
    hide HonestInv, Harmful, Step, Respond, Accept, Run, CanBreak;
    HonestRunInv(es);
    StepCases(Run(es), e);
    if Harmful(Run(es), Decoded(e.packet)) {
      HarmfulBreaks(Run(es), Decoded(e.packet), e.ackOk, e.nextOk);
    } else {
      StepKeeps(Run(es), e);
      HonestCannotBreak(Step(Run(es), e));
    }
  }

  /** The first of three messages is sent at once, the second waits. */
  lemma FirstTaken()
    ensures Respond(Accept(INITIAL, OneByte(0, 1)), true, true).0
         == Link(SentEOM, 1, 0, 1, 0, [], [OneByte(0, 1)], [], [OneByte(0, 1)], 0)
  {
    var l := Accept(INITIAL, OneByte(0, 1));
    assert l == Link(ReceivedEOM, 1, 0, 0, 0, [1], [OneByte(0, 1)], [], [], 0);
    assert [1][..1] == [1];
  }

  lemma SecondTaken()
    ensures var l := Link(SentEOM, 1, 0, 1, 0, [], [OneByte(0, 1)], [], [OneByte(0, 1)], 0);
            Respond(Accept(l, OneByte(1, 2)), true, true).0
            == Link(SentEOM, 2, 0, 1, 0, [2], [OneByte(0, 1), OneByte(1, 2)], [], [OneByte(0, 1)], 0)
  {
    assert [OneByte(0, 1)] + [OneByte(1, 2)] == [OneByte(0, 1), OneByte(1, 2)];
  }

  /** The first message is acked, and the third arrives. */
  lemma ThirdTaken(l: Link)
    requires l == Link(SentEOM, 2, 0, 1, 0, [2], [OneByte(0, 1), OneByte(1, 2)], [], [OneByte(0, 1)], 0)
    ensures var l' := Respond(Accept(Acked(l), OneByte(2, 3)), true, true).0;
            && Acked(l).phase == EOMAcked
            && l'.accepted == [OneByte(0, 1), OneByte(1, 2), OneByte(2, 3)]
            && l'.frags == [OneByte(0, 1), Message(FLAG_DATA + FLAG_EOM, 1, [2, 3])]
  {
    assert Acked(l) == Link(EOMAcked, 2, 2, 1, 1, [2], [OneByte(0, 1), OneByte(1, 2)],
                            [Message(FLAG_ACK, 1, [])], [OneByte(0, 1)], 1);
    var l1 := Accept(Acked(l), OneByte(2, 3));
    assert l1 == Link(ReceivedEOM, 3, 2, 1, 1, [2, 3], [OneByte(0, 1), OneByte(1, 2), OneByte(2, 3)],
                      [Message(FLAG_ACK, 1, [])], [OneByte(0, 1)], 1);
    assert [2, 3][..2] == [2, 3];
  }

  /** Only the second of the four events is sent out of turn. */
  ghost predicate HonestButSecond(es: seq<Event>)
  {
    |es| == 4 && es[1].Upstream? && forall i | 0 <= i < 4 && i != 1 :: Honest(Run(es[..i]), es[i])
  }

  lemma Pipelined() returns (es: seq<Event>)
    ensures HonestButSecond(es)
    ensures Run(es).accepted == [OneByte(0, 1), OneByte(1, 2), OneByte(2, 3)]
    ensures Run(es).frags == [OneByte(0, 1), Message(FLAG_DATA + FLAG_EOM, 1, [2, 3])]
  {
    hide Step, Run, InOrderAck, Respond, Accept, Acked, Honest, Marshal;
    var u0, u1, u2 := OneBytePacket(0, 1), OneBytePacket(1, 2), OneBytePacket(2, 3);
    assert Run([]) == INITIAL by { EmptyRun(); }
    RunSnoc([], u0);
    OneByteStep(INITIAL, 0, 1);
    FirstTaken();
    RunSnoc([] + [u0], u1);
    OneByteStep(Run([] + [u0]), 1, 2);
    SecondTaken();
    var two := [] + [u0] + [u1];
    var l := Run(two);
    var a := InOrderAck(l);
    InOrderAckStep(l);
    RunSnoc(two, a);
    RunSnoc(two + [a], u2);
    OneByteStep(Run(two + [a]), 2, 3);
    ThirdTaken(l);
    es := two + [a] + [u2];
    assert es[..0] == [] && es[..2] == two && es[..3] == two + [a];
  }

  lemma EmptyRun()
    ensures Run([]) == INITIAL
  {
  }

  lemma EomEndsMessage(ms: seq<Message>, m: Message)
    requires Pending(ms) == [] && IsEom(m)
    ensures Messages(ms + [m]) == Messages(ms) + [m.payload] && Pending(ms + [m]) == []
  {
    MessagesSnoc(ms, m);
    assert Pending(ms) + m.payload == m.payload;
  }

  /** A harmful fragment at work: one message sent before the last is acked, and everything else
      honest, has the second and third message merged. */
  lemma PipeliningMergesMessages()
    ensures exists es ::
              && HonestButSecond(es)
              && Messages(Run(es).accepted) == [[1], [2], [3]]
              && Messages(Run(es).frags) == [[1], [2, 3]]
  {
    hide Run, Marshal, HonestButSecond;
    var es := Pipelined();
    var m0, m1, m2, f1 := OneByte(0, 1), OneByte(1, 2), OneByte(2, 3), Message(FLAG_DATA + FLAG_EOM, 1, [2, 3]);
    assert [m0] == [] + [m0] && [m0, m1] == [m0] + [m1] && [m0, m1, m2] == [m0, m1] + [m2] && [m0, f1] == [m0] + [f1];
    EomEndsMessage([], m0);
    EomEndsMessage([m0], m1);
    EomEndsMessage([m0, m1], m2);
    EomEndsMessage([m0], f1);
  }

  // ---------------------------------------------------------------- a stop-and-wait upstream

  /** The next fragment comes only when every fragment so far is acked. */
  predicate InStep(l: Link, e: Event)
  {
    match e
    case Upstream(p, _, _) => IsData(p) && Decoded(p).sequence == l.rxseq ==> l.rxack == l.rxseq
    case Downstream(_, _) => Honest(l, e)
  }

  predicate InStepRun(es: seq<Event>)
  {
    es == [] || (InStepRun(es[..|es| - 1]) && InStep(Run(es[..|es| - 1]), es[|es| - 1]))
  }

  /** The acks sent upstream name the fragments one by one. */
  ghost predicate AckLog(acks: seq<Message>)
  {
    forall i | 0 <= i < |acks| :: acks[i] == Message(FLAG_ACK, Wrap32(i), [])
  }

  /** Exactly the end of message being held back is unacked upstream. */
  ghost predicate InStepInv(l: Link)
  {
    && l.rxseq == Wrap32(|l.accepted|)
    && l.rxack == Wrap32(|l.acks|)
    && AckLog(l.acks)
    && (if l.phase == Receiving || l.phase == EOMAcked then |l.acks| == |l.accepted|
        else |l.acks| + 1 == |l.accepted| && IsEom(l.accepted[|l.acks|]))
    && (l.phase == SentEOM || l.phase == EOMAcked ==> l.txqueue == [])
    && (l.phase == ReceivedEOM ==> |Messages(l.accepted)| == |Messages(l.frags)| + 1)
  }

  lemma InStepIsHonest(l: Link, e: Event)
    requires InStepInv(l) && InStep(l, e)
    ensures Honest(l, e)
  {
    hide Decoded, Flags, Messages;
    NextCounter(|l.acks|);
  }

  lemma SendNextInStep(l: Link)
    requires TxInv(l) && InStepInv(l)
    ensures InStepInv(SendNext(l))
  {
    hide SendNext, Messages, Pending, Wrap32;
    SendNextSends(l);
    var l' := SendNext(l);
    if l' != l { MessagesSnoc(l.frags, l'.frags[|l.frags|]); }
  }

  lemma SendAckInStep(l: Link)
    requires l.rxseq == Wrap32(|l.accepted|) && l.rxack == Wrap32(|l.acks|) && AckLog(l.acks)
    requires |l.acks| <= |l.accepted| <= |l.acks| + 1
    ensures var l' := SendAck(l);
            l'.rxack == Wrap32(|l'.acks|) && AckLog(l'.acks) && |l'.acks| == |l.accepted|
  {
    NextCounter(|l.acks|);
  }

  lemma AcceptInStep(l: Link, rm: Message)
    requires PhaseInv(l) && InStepInv(l) && rm.sequence == l.rxseq == l.rxack
    ensures var l1 := Accept(l, rm);
            if IsEom(rm) then l1.phase == ReceivedEOM && InStepInv(l1)
            else l1.phase == Receiving && l1.rxseq != l1.rxack && InStepInv(SendAck(l1))
  {
    hide Messages, Pending;
    NextCounter(|l.acks|);
    MessagesSnoc(l.accepted, rm);
    var l1 := Accept(l, rm);
    SendAckInStep(l1);
  }

  lemma UpstreamInStep(l: Link, rm: Message, ackOk: bool, nextOk: bool)
    requires HonestInv(l) && InStepInv(l) && (rm.sequence == l.rxseq ==> l.rxack == l.rxseq)
    ensures InStepInv(Respond(Accept(l, rm), ackOk, nextOk).0)
  {
    hide SendNext, SendAck, PhaseInv, InStepInv;
    var l1 := Accept(l, rm);
    if rm.sequence == l.rxseq {
      AcceptInStep(l, rm);
      if IsEom(rm) {
        SendNextInStep(l1);
      } else {
        SendAckKeepsTx(l1);
        SendNextInStep(SendAck(l1));
      }
    } else {
      SendNextInStep(l1);
    }
  }

  lemma SendAckKeepsTx(l: Link)
    requires TxInv(l)
    ensures TxInv(SendAck(l))
  {
  }

  lemma DownstreamInStep(l: Link)
    requires HonestInv(l) && InStepInv(l) && l.acked < |l.frags|
    ensures InStepInv(Acked(l))
  {
    hide SendNext, Messages, Pending;
    NextCounter(l.acked);
    var l1 := TakeAck(l);
    if l.phase == SentEOM { SendAckInStep(l1); } else { SendNextInStep(l1); }
  }

  lemma {:induction false} InStepRunInv(es: seq<Event>)
    requires InStepRun(es)
    ensures HonestRun(es) && HonestInv(Run(es)) && InStepInv(Run(es))
  {
    hide Step, HonestInv, InStepInv, Respond, Accept, Acked, Honest, Decoded;
    if es == [] {
      InitialInv();
    } else {
      var l, e := Run(es[..|es| - 1]), es[|es| - 1];
      InStepRunInv(es[..|es| - 1]);
      InStepIsHonest(l, e);
      StepKeeps(l, e);
      InStepStep(l, e);
    }
  }

  lemma InitialInv()
    ensures HonestInv(INITIAL) && InStepInv(INITIAL)
  {
  }

  lemma InStepStep(l: Link, e: Event)
    requires HonestInv(l) && InStepInv(l) && InStep(l, e)
    ensures InStepInv(Step(l, e))
  {
    hide Step, HonestInv, InStepInv, Respond, Accept, Acked, Decoded;
    StepCases(l, e);
    match e
    case Upstream(p, ackOk, nextOk) => if IsData(p) { UpstreamInStep(l, Decoded(p), ackOk, nextOk); }
    case Downstream(p, _) => if IsAck(p) && Decoded(p).sequence == l.txack { DownstreamInStep(l); }
  }

  /** A stop-and-wait upstream sends fragment k only once it holds k acks, and a downstream acks
      only fragments it was sent; either may repeat itself within one lap of the 32-bit counters. */
  ghost predicate StopAndWait(l: Link, e: Event)
  {
    match e
    case Upstream(p, _, _) =>
      IsData(p) ==> exists k: nat :: k <= |l.acks| && |l.acks| + 1 < k + 0x1_0000_0000 && Decoded(p).sequence == Wrap32(k)
    case Downstream(p, _) =>
      IsAck(p) ==> exists k: nat :: k < |l.frags| < k + 0x1_0000_0000 && Decoded(p).sequence == Wrap32(k)
  }

  ghost predicate StopAndWaitRun(es: seq<Event>)
  {
    es == [] || (StopAndWaitRun(es[..|es| - 1]) && StopAndWait(Run(es[..|es| - 1]), es[|es| - 1]))
  }

  lemma StopAndWaitStep(l: Link, e: Event)
    requires TxInv(l) && InStepInv(l) && StopAndWait(l, e)
    ensures InStep(l, e)
  {
    hide Decoded, Flags, Messages, AckLog;
    match e
    case Upstream(p, _, _) =>
      if IsData(p) && Decoded(p).sequence == l.rxseq {
        var k: nat :| k <= |l.acks| && |l.acks| + 1 < k + 0x1_0000_0000 && Decoded(p).sequence == Wrap32(k);
        SameLap(k, |l.accepted|);
      }
    case Downstream(p, _) =>
      if IsAck(p) && Decoded(p).sequence == l.txack {
        var k: nat :| k < |l.frags| < k + 0x1_0000_0000 && Decoded(p).sequence == Wrap32(k);
        if l.acked == |l.frags| { SameLap(k, l.acked); }
      }
  }

  /** Peers that follow the protocol by their own counts keep in step, so that every theorem
      about honest peers and peers in step is one about them. */
  lemma {:induction false} StopAndWaitIsInStep(es: seq<Event>)
    requires StopAndWaitRun(es)
    ensures InStepRun(es) && HonestRun(es)
  {
    hide Step, InStepInv, PhaseInv, TxInv, AckInv, InStep, Honest, StopAndWait;
    if es != [] {
      StopAndWaitIsInStep(es[..|es| - 1]);
      InStepRunInv(es[..|es| - 1]);
      StopAndWaitStep(Run(es[..|es| - 1]), es[|es| - 1]);
    }
    InStepRunInv(es);
  }

  /** The messages completed before the last fragment. */
  lemma MessagesInit(ms: seq<Message>, k: nat)
    requires k <= |ms| <= k + 1
    ensures Messages(ms[..k]) ==
            if k < |ms| && IsEom(ms[k]) && Messages(ms) != [] then Messages(ms)[..|Messages(ms)| - 1] else Messages(ms)
  {
    if k == |ms| {
      assert ms[..k] == ms;
    } else {
      assert ms == ms[..k] + [ms[k]];
      MessagesSnoc(ms[..k], ms[k]);
    }
  }

  lemma MessagesCoupled(l: Link)
    requires HonestInv(l) && InStepInv(l)
    ensures Messages(l.accepted[..|l.acks|]) == Messages(l.frags[..l.acked])
  {
    hide Wrap32, AckLog, Pending, Messages;
    MessagesInit(l.accepted, |l.acks|);
    MessagesInit(l.frags, l.acked);
  }

  /** End-to-end ack coupling: at most one fragment is unacked on either side, upstream's only
      while the end of a message is held back, and upstream holds acks for exactly the messages
      that downstream has acked to the end. */
  lemma {:induction false} AcksAreCoupled(es: seq<Event>)
    requires InStepRun(es)
    ensures Wrap32(Run(es).txseq - Run(es).txack) == |Run(es).frags| - Run(es).acked <= 1
    ensures Wrap32(Run(es).rxseq - Run(es).rxack) == |Run(es).accepted| - |Run(es).acks| <= 1
    ensures |Run(es).acks| < |Run(es).accepted| <==> Run(es).phase == ReceivedEOM || Run(es).phase == SentEOM
    ensures |Messages(Run(es).accepted)| <= |Messages(Run(es).frags)| + 1
    ensures AckLog(Run(es).acks)
    ensures Messages(Run(es).accepted[..|Run(es).acks|]) == Messages(Run(es).frags[..Run(es).acked])
  {
    hide Messages, Run;
    InStepRunInv(es);
    CounterGap(Run(es).acked, |Run(es).frags|);
    CounterGap(|Run(es).acks|, |Run(es).accepted|);
    MessagesCoupled(Run(es));
  }

  // ---------------------------------------------------------------- bytes left behind

  /** A fragment is taken while downstream has nothing outstanding, but its ack cannot be sent:
      the handler returns before it sends anything on. */
  predicate AckRefused(l: Link, e: Event)
  {
    && e.Upstream? && IsData(e.packet) && !e.ackOk
    && Decoded(e.packet).sequence == l.rxseq && !IsEom(Decoded(e.packet))
    && (l.phase == Receiving || l.phase == EOMAcked)
    && l.acked == |l.frags|
    && (l.txqueue != [] || Decoded(e.packet).payload != [])
  }

  /** That is what became of the last data packet from upstream. */
  predicate Stranded(es: seq<Event>)
  {
    && es != []
    && var l, e := Run(es[..|es| - 1]), es[|es| - 1];
       if e.Upstream? && IsData(e.packet) then AckRefused(l, e) else Stranded(es[..|es| - 1])
  }

  lemma UpstreamWaits(l: Link, e: Event)
    requires HonestInv(l) && Honest(l, e) && e.Upstream? && IsData(e.packet)
    ensures Waiting(Step(l, e)) <==> (Step(l, e).phase == EOMAcked && Step(l, e).txqueue != []) || AckRefused(l, e)
    ensures AckRefused(l, e) ==> Step(l, e).phase == Receiving
  {
    hide Step, SendNext, Messages, Pending, Decoded;
    StepCases(l, e);
    var rm := Decoded(e.packet);
    AcceptKeepsPhase(l, rm);
    var l1 := Accept(l, rm);
    var acking := (l1.phase == Receiving || l1.phase == EOMAcked) && l1.rxseq != l1.rxack;
    SendAckKeepsPhase(l1);
    SendNextSends(if acking then SendAck(l1) else l1);
  }

  lemma OtherWaits(l: Link, e: Event)
    requires HonestInv(l) && Honest(l, e) && !(e.Upstream? && IsData(e.packet))
    ensures Waiting(l) ==> Step(l, e) == l
    ensures !Waiting(l) ==> (Waiting(Step(l, e)) <==> Step(l, e).phase == EOMAcked && Step(l, e).txqueue != [])
  {
    hide Step, SendNext, Messages, Pending, Decoded;
    StepCases(l, e);
    if e.Downstream? && IsAck(e.packet) && Decoded(e.packet).sequence == l.txack { DownstreamKeeps(l); }
  }

  /** Bytes wait with nothing outstanding downstream, so that no ack will set them going, in
      exactly two cases: they were sent ahead, behind an end of message since acked, or the last
      data packet had its ack refused. A peer in step has only the second. */
  lemma {:induction false} BytesAreStranded(es: seq<Event>)
    requires HonestRun(es)
    ensures Waiting(Run(es)) <==> (Run(es).phase == EOMAcked && Run(es).txqueue != []) || Stranded(es)
    ensures Stranded(es) ==> Run(es).phase == Receiving
    ensures InStepRun(es) ==> (Waiting(Run(es)) <==> Stranded(es))
  {
    hide Step, HonestInv, InStep, Honest, Waiting, AckRefused, Messages;
    if es == [] {
      NothingWaits();
    } else {
      var l, e := Run(es[..|es| - 1]), es[|es| - 1];
      BytesAreStranded(es[..|es| - 1]);
      HonestRunInv(es[..|es| - 1]);
      if e.Upstream? && IsData(e.packet) { UpstreamWaits(l, e); } else { OtherWaits(l, e); }
    }
    if InStepRun(es) { InStepRunInv(es); }
  }

  lemma NothingWaits()
    ensures !Waiting(INITIAL)
  {
  }

  /** Such a run: the first fragment is queued and its ack refused. */
  lemma AckRefusedStrands()
    ensures exists es :: StopAndWaitRun(es) && Stranded(es) && Waiting(Run(es))
  {
    hide Marshal, Unmarshal, Step;
    var m := Message(FLAG_DATA, 0, [1]);
    MessageRoundTrip(m);
    var e := Upstream(Marshal(m), false, true);
    OneEventRun(e, m);
    assert [e][..0] == [];
    StepCases(INITIAL, e);
    assert AckRefused(INITIAL, e);
    assert Stranded([e]);
  }

  // ---------------------------------------------------------------- draining

  function Drain(l: Link, k: nat): Link
    decreases k
  {
    if k == 0 then l else Drain(Step(l, InOrderAck(l)), k - 1)
  }

  /** The number of MTU-sized pieces that n bytes need. */
  function Pieces(n: nat): nat { (n + MAX_PAYLOAD - 1) / MAX_PAYLOAD }

  lemma PiecesStep(n: nat)
    requires n > 0
    ensures Pieces(n) == 1 + (if n <= MAX_PAYLOAD then 0 else Pieces(n - MAX_PAYLOAD))
  {
  }

  /** Nothing is in the queue but what waits behind an unacked fragment. */
  ghost predicate Draining(l: Link)
  {
    HonestInv(l) && l.phase == ReceivedEOM && l.txqueue != [] && l.acked < |l.frags|
  }

  /** One in-order ack lets one more piece of the queue go. */
  lemma NextPiece(l: Link)
    requires Draining(l)
    ensures var l1 := Step(l, InOrderAck(l));
            && HonestInv(l1) && l1.acked < |l1.frags| && l1.accepted == l.accepted && SendAck(l1).acks == SendAck(l).acks
            && l1.phase == (if |l.txqueue| <= MAX_PAYLOAD then SentEOM else ReceivedEOM)
            && |l1.txqueue| == (if |l.txqueue| <= MAX_PAYLOAD then 0 else |l.txqueue| - MAX_PAYLOAD)
  {
    hide Step, InOrderAck, Messages, Pending;
    InOrderAckStep(l);
    DownstreamKeeps(l);
    NextCounter(l.acked);
  }

  /** The ack of the last piece releases the ack that upstream is waiting for. */
  lemma LastPiece(l: Link)
    requires HonestInv(l) && l.phase == SentEOM
    ensures var l1 := Step(l, InOrderAck(l));
            && HonestInv(l1) && l1.phase == EOMAcked && l1.txqueue == l.txqueue
            && l1.accepted == l.accepted && l1.acks == SendAck(l).acks
  {
    hide Step, InOrderAck, Messages, Pending;
    InOrderAckStep(l);
    DownstreamKeeps(l);
  }

  lemma {:induction false} DrainSteps(l: Link, k: nat)
    requires Draining(l)
    requires k <= Pieces(|l.txqueue|) + 1
    ensures var d := Drain(l, k);
            && HonestInv(d) && d.accepted == l.accepted
            && (d.phase == EOMAcked <==> k == Pieces(|l.txqueue|) + 1)
            && (d.phase == EOMAcked ==> d.txqueue == [] && d.acks == SendAck(l).acks)
    decreases k
  {
    hide HonestInv, Step, InOrderAck, SendAck, Pieces;
    PiecesStep(|l.txqueue|);
    if k > 0 {
      NextPiece(l);
      var l1 := Step(l, InOrderAck(l));
      if l1.phase == ReceivedEOM {
        DrainSteps(l1, k - 1);
      } else if k > 1 {
        LastPiece(l1);
        assert Drain(l1, 1) == Drain(Step(l1, InOrderAck(l1)), 0);
      }
    }
  }

  /** No honest peer can move a link that holds an end of message and nothing to put it on. */
  lemma {:induction false} StalledForever(es: seq<Event>, more: seq<Event>)
    requires HonestRun(es + more)
    requires Run(es).phase == ReceivedEOM && Run(es).txqueue == []
    ensures var l, l' := Run(es), Run(es + more);
            l'.phase == ReceivedEOM && l'.txqueue == [] && l'.frags == l.frags && l'.acks == l.acks
  {
    hide Step, Honest;
    if more == [] {
      assert es + more == es;
    } else {
      var n := |more| - 1;
      assert (es + more)[..|es + more| - 1] == es + more[..n];
      StalledForever(es, more[..n]);
      StalledStep(Run(es + more[..n]), more[n]);
    }
  }

  lemma StalledStep(l: Link, e: Event)
    requires Honest(l, e) && l.phase == ReceivedEOM && l.txqueue == []
    ensures var l' := Step(l, e);
            l'.phase == ReceivedEOM && l'.txqueue == [] && l'.frags == l.frags && l'.acks == l.acks
  {
    hide Step, Decoded;
    StepCases(l, e);
  }

  /** Bounded drain: once upstream has sent the end of a message, n queued bytes need exactly
      ceil(n / 1016) + 1 in-order acks to be relayed and acked upstream, no fewer; and a link
      whose queue is empty at that point never gets there, whatever honest peers do. */
  lemma {:induction false} DrainExactly(es: seq<Event>, k: nat)
    requires HonestRun(es) && Run(es).phase == ReceivedEOM
    ensures Run(es).txqueue != [] && k <= Pieces(|Run(es).txqueue|) + 1 ==>
              var l, d := Run(es), Drain(Run(es), k);
              && (d.phase == EOMAcked <==> k == Pieces(|l.txqueue|) + 1)
              && (d.phase == EOMAcked ==>
                    && d.txqueue == [] && d.accepted == l.accepted
                    && d.acks == SendAck(l).acks
                    && Messages(d.frags) == Messages(l.accepted))
    ensures Run(es).txqueue == [] ==> forall more | HonestRun(es + more) :: Run(es + more).phase != EOMAcked
    ensures InStepRun(es) ==> |SendAck(Run(es)).acks| == |Run(es).acks| + 1
  {
    hide Step, Messages, Pending, Drain, Pieces, Stranded;
    HonestRunInv(es);
    if Run(es).txqueue != [] {
      BytesAreStranded(es);
      if k <= Pieces(|Run(es).txqueue|) + 1 { DrainSteps(Run(es), k); }
    } else {
      forall more | HonestRun(es + more) ensures Run(es + more).phase != EOMAcked {
        StalledForever(es, more);
      }
    }
    if InStepRun(es) {
      InStepRunInv(es);
      NextCounter(|Run(es).acks|);
    }
  }

  /** Such a link exists: an end of message that carries no bytes. */
  lemma EmptyEomStalls()
    ensures exists es :: StopAndWaitRun(es) && Run(es).phase == ReceivedEOM && Run(es).txqueue == []
  {
    hide Marshal, Unmarshal, Step, Respond, Accept;
    var m := Message(FLAG_DATA + FLAG_EOM, 0, []);
    MessageRoundTrip(m);
    var e := Upstream(Marshal(m), true, true);
    OneEventRun(e, m);
    StepCases(INITIAL, e);
    EmptyEomTaken(m);
  }

  /** A run of one data packet that is next in sequence. */
  lemma OneEventRun(e: Event, m: Message)
    requires e.Upstream? && IsData(e.packet) && Decoded(e.packet) == m && m.sequence == 0
    ensures Run([e]) == Step(INITIAL, e) && StopAndWaitRun([e])
  {
    hide Step, Decoded, IsData;
    assert [e][..0] == [] && Run([]) == INITIAL;
    assert StopAndWait(INITIAL, e) by { assert m.sequence == Wrap32(0); }
  }

  lemma EmptyEomTaken(m: Message)
    requires m == Message(FLAG_DATA + FLAG_EOM, 0, [])
    ensures var l := Respond(Accept(INITIAL, m), true, true).0; l.phase == ReceivedEOM && l.txqueue == []
  {
  }
}
