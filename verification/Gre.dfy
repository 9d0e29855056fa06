/** Sequencing of PPP frames over GRE (section 4.3 of RFC 2637): late frames are discarded and
    the highest sequence number seen is acknowledged with the next frame sent. */
module Gre {
  import opened Bytes

  const RECV_QUEUE_SIZE := 16

  datatype Frame = Frame(sequence: Option<u32>, payload: seq<byte>)

  datatype Header = Header(sequence: Option<u32>, ack: Option<u32>, payload: seq<byte>)

  /** What the session has done, in order: frames taken from the queue, frames returned to the
      reader, and frames sent. */
  datatype Action = Took(frame: Frame) | Returned(frame: Frame) | Sent(header: Header)

  datatype Session = Session(
    queue: seq<Frame>, closed: bool, sentSeq: u32, recvSeq: u32, recvAcked: u32,
    arrived: seq<Frame>,    // every frame queued
    log: seq<Action>)

  const INITIAL := Session([], false, 0, 0, 0, [], [])

  /** processPacket: never blocks, and drops what does not fit. */
  function Arrive(s: Session, f: Frame): Session
  {
    if s.closed || |s.queue| >= RECV_QUEUE_SIZE then s
    else s.(queue := s.queue + [f], arrived := s.arrived + [f])
  }

  predicate Late(s: Session, f: Frame) { f.sequence.Some? && f.sequence.value < s.recvSeq }

  /** recvPacket on the frame at the head of the queue; late frames give no result. */
  function Take(s: Session): (Session, Option<Frame>)
    requires s.queue != []
  {
    var f := s.queue[0];
    var s1 := s.(queue := s.queue[1..], log := s.log + [Took(f)]);
    if Late(s, f) then (s1, None)
    else (s1.(recvSeq := if f.sequence.Some? then f.sequence.value else s.recvSeq), Some(f))
  }

  /** Read: tries again after late and empty frames. With the queue empty it has no result yet,
      or the end of the stream once the session is closed. */
  function Read(s: Session): (r: (Session, Option<Frame>))
    decreases |s.queue|
  {
    if s.queue == [] then (s, None)
    else
      var (s1, f) := Take(s);
      if f.Some? && f.value.payload != [] then (s1.(log := s1.log + [Returned(f.value)]), f)
      else Read(s1)
  }

  function Send(s: Session, payload: seq<byte>): Session
  {
    var numbered := payload != [];
    var acking := s.recvAcked < s.recvSeq;
    s.(sentSeq := if numbered then Wrap32(s.sentSeq + 1) else s.sentSeq,
       recvAcked := if acking then s.recvSeq else s.recvAcked,
       log := s.log + [Sent(Header(if numbered then Some(s.sentSeq) else None,
                                   if acking then Some(s.recvSeq) else None,
                                   payload))])
  }

  datatype Event = Arrives(frame: Frame) | Reads | Sends(payload: seq<byte>) | Closes

  function Step(s: Session, e: Event): Session
  {
    match e
    case Arrives(f) => Arrive(s, f)
    case Reads => Read(s).0
    case Sends(payload) => Send(s, payload)
    case Closes => s.(closed := true)
  }

  function Run(es: seq<Event>): Session
  {
    if es == [] then INITIAL else Step(Run(es[..|es| - 1]), es[|es| - 1])
  }

  // ---------------------------------------------------------------- order and acknowledgement

  /** The highest sequence number received, or zero. */
  function Highest(log: seq<Action>): (h: int)
    ensures h >= 0
  {
    if log == [] then 0
    else
      var h, a := Highest(log[..|log| - 1]), log[|log| - 1];
      if a.Took? && a.frame.sequence.Some? then Max(h, a.frame.sequence.value) else h
  }

  /** The last acknowledgement sent, or zero. */
  function LastAck(log: seq<Action>): (h: int)
  {
    if log == [] then 0
    else
      var a := log[|log| - 1];
      if a.Sent? && a.header.ack.Some? then a.header.ack.value else LastAck(log[..|log| - 1])
  }

  /** The number of non-empty frames sent. */
  function Numbered(log: seq<Action>): (n: nat)
  {
    if log == [] then 0
    else Numbered(log[..|log| - 1]) + if log[|log| - 1].Sent? && log[|log| - 1].header.payload != [] then 1 else 0
  }

  /** The frames taken from the queue. */
  function Taken(log: seq<Action>): seq<Frame>
  {
    if log == [] then []
    else Taken(log[..|log| - 1]) + if log[|log| - 1].Took? then [log[|log| - 1].frame] else []
  }

  /** A frame the reader should get: it carries data and nothing higher was received before. */
  ghost predicate Due(before: seq<Action>, f: Frame)
  {
    f.payload != [] && (f.sequence.Some? ==> Highest(before) <= f.sequence.value)
  }

  /** Every frame that is due is returned as soon as it is taken. */
  ghost predicate NoneWithheld(log: seq<Action>)
  {
    forall i | 0 <= i < |log| && log[i].Took? && Due(log[..i], log[i].frame) ::
      i + 1 < |log| && log[i + 1] == Returned(log[i].frame)
  }

  /** Each action is right for what went before it. A frame is returned only if it was just
      taken and was due; a non-empty frame has the next number; an ack is sent exactly when
      something higher than the last ack was received, and names the highest. */
  ghost predicate ActionOk(before: seq<Action>, a: Action)
  {
    match a
    case Took(_) => true
    case Returned(f) => |before| > 0 && before[|before| - 1] == Took(f) && Due(before, f)
    case Sent(h) =>
      && h.sequence == (if h.payload != [] then Some(Wrap32(Numbered(before))) else None)
      && (if LastAck(before) < Highest(before) then h.ack.Some? && h.ack.value == Highest(before) else h.ack.None?)
  }

  ghost predicate LogOk(log: seq<Action>)
  {
    forall i | 0 <= i < |log| :: ActionOk(log[..i], log[i])
  }

  ghost predicate Inv(s: Session)
  {
    && |s.queue| <= RECV_QUEUE_SIZE
    && LogOk(s.log) && NoneWithheld(s.log)
    && s.arrived == Taken(s.log) + s.queue
    && s.recvSeq == Highest(s.log) && s.recvAcked == LastAck(s.log) <= s.recvSeq
    && s.sentSeq == Wrap32(Numbered(s.log))
  }

  lemma Snoc(log: seq<Action>, a: Action)
    requires LogOk(log) && ActionOk(log, a)
    ensures LogOk(log + [a])
    ensures Highest(log + [a])
         == if a.Took? && a.frame.sequence.Some? then Max(Highest(log), a.frame.sequence.value) else Highest(log)
    ensures LastAck(log + [a]) == if a.Sent? && a.header.ack.Some? then a.header.ack.value else LastAck(log)
    ensures Numbered(log + [a]) == Numbered(log) + if a.Sent? && a.header.payload != [] then 1 else 0
    ensures Taken(log + [a]) == Taken(log) + if a.Took? then [a.frame] else []
  {
    var log' := log + [a];
    assert log'[..|log|] == log;
    forall i | 0 <= i < |log'| ensures ActionOk(log'[..i], log'[i]) {
      assert log'[..i] == log[..i];
    }
  }

  /** An action that does not leave a frame waiting. */
  lemma SettledSnoc(log: seq<Action>, a: Action)
    requires NoneWithheld(log) && (a.Took? ==> !Due(log, a.frame))
    ensures NoneWithheld(log + [a])
  {
    var log' := log + [a];
    forall i | 0 <= i < |log'| && log'[i].Took? && Due(log'[..i], log'[i].frame)
      ensures i + 1 < |log'| && log'[i + 1] == Returned(log'[i].frame)
    {
      assert log'[..i] == log[..i];
    }
  }

  lemma ReturnedSnoc(log: seq<Action>, f: Frame)
    requires NoneWithheld(log)
    ensures NoneWithheld(log + [Took(f)] + [Returned(f)])
  {
    var log' := log + [Took(f)] + [Returned(f)];
    forall i | 0 <= i < |log'| && log'[i].Took? && Due(log'[..i], log'[i].frame)
      ensures i + 1 < |log'| && log'[i + 1] == Returned(log'[i].frame)
    {
      if i < |log| { assert log'[..i] == log[..i]; }
    }
  }

  lemma SendKeeps(s: Session, payload: seq<byte>)
    requires Inv(s)
    ensures Inv(Send(s, payload))
  {
    hide Wrap32, Taken, Numbered, LastAck, Highest;
    var a := Send(s, payload).log[|s.log|];
    Snoc(s.log, a);
    SettledSnoc(s.log, a);
    NextCounter(Numbered(s.log));
  }

  /** A frame that is taken and returned. */
  lemma TakeReturns(s: Session, f: Frame)
    requires Inv(s) && s.queue != [] && f == s.queue[0] && !Late(s, f) && f.payload != []
    ensures Inv(Take(s).0.(log := s.log + [Took(f)] + [Returned(f)]))
  {
    hide Taken, Numbered, LastAck;
    Snoc(s.log, Took(f));
    Snoc(s.log + [Took(f)], Returned(f));
    ReturnedSnoc(s.log, f);
    assert Taken(s.log) + s.queue == Taken(s.log) + [f] + s.queue[1..];
  }

  /** A frame that is taken and dropped: it is late or carries no data. */
  lemma TakeDrops(s: Session, f: Frame)
    requires Inv(s) && s.queue != [] && f == s.queue[0] && (Late(s, f) || f.payload == [])
    ensures Inv(Take(s).0)
  {
    hide Taken, Numbered, LastAck;
    Snoc(s.log, Took(f));
    SettledSnoc(s.log, Took(f));
    assert Taken(s.log) + s.queue == Taken(s.log) + [f] + s.queue[1..];
  }

  lemma {:induction false} ReadKeeps(s: Session)
    requires Inv(s)
    ensures Inv(Read(s).0)
    decreases |s.queue|
  {
    if s.queue != [] {
      var f := s.queue[0];
      if Late(s, f) || f.payload == [] {
        TakeDrops(s, f);
        ReadKeeps(Take(s).0);
      } else {
        TakeReturns(s, f);
      }
    }
  }

  lemma {:induction false} RunInv(es: seq<Event>)
    ensures Inv(Run(es))
  {
    if es != [] {
      var s := Run(es[..|es| - 1]);
      RunInv(es[..|es| - 1]);
      match es[|es| - 1] {
        case Arrives(_) =>
        case Reads => ReadKeeps(s);
        case Sends(payload) => SendKeeps(s, payload);
        case Closes =>
      }
    }
  }

  lemma {:induction false} HighestGrows(log: seq<Action>, i: nat)
    requires i <= |log|
    ensures Highest(log[..i]) <= Highest(log)
  {
    if i == |log| {
      assert log[..i] == log;
    } else {
      HighestGrows(log[..|log| - 1], i);
      assert log[..|log| - 1][..i] == log[..i];
    }
  }

  /** Frames are handled in the order they were queued, and the reader gets each one that
      carries data and is not below a number already received, and no other. */
  lemma {:induction false} ReadsAreComplete(es: seq<Event>, i: nat)
    requires i < |Run(es).log| && Run(es).log[i].Took?
    ensures Taken(Run(es).log) <= Run(es).arrived
    ensures Due(Run(es).log[..i], Run(es).log[i].frame) <==>
            i + 1 < |Run(es).log| && Run(es).log[i + 1] == Returned(Run(es).log[i].frame)
  {
    RunInv(es);
    var log := Run(es).log;
    if i + 1 < |log| && log[i + 1] == Returned(log[i].frame) {
      assert ActionOk(log[..i + 1], log[i + 1]);
      HighestGrows(log[..i + 1], i);
      assert log[..i + 1][..i] == log[..i];
    }
  }

  /** Frames are returned in sequence: numbers never go down, in any run. */
  lemma {:induction false} ReadsAreOrdered(es: seq<Event>, i: nat, j: nat)
    requires i < j < |Run(es).log| && Run(es).log[i].Returned? && Run(es).log[j].Returned?
    requires Run(es).log[i].frame.sequence.Some? && Run(es).log[j].frame.sequence.Some?
    ensures Run(es).log[i].frame.sequence.value <= Run(es).log[j].frame.sequence.value
  {
    RunInv(es);
    var log := Run(es).log;
    assert ActionOk(log[..i], log[i]) && ActionOk(log[..j], log[j]);
    assert log[..j][..i] == log[..i];
    HighestGrows(log[..j], i);
    assert log[..i][..i - 1] == log[..i - 1];
  }

  lemma {:induction false} LastAckIs(log: seq<Action>, i: nat)
    requires LogOk(log) && i < |log| && log[i].Sent? && log[i].header.ack.Some?
    ensures log[i].header.ack.value <= LastAck(log)
  {
    var n := |log| - 1;
    if i < n {
      LogOkPrefix(log, n);
      LastAckIs(log[..n], i);
      assert ActionOk(log[..n], log[n]);
    }
  }

  /** Acks are strictly increasing, and each names the highest sequence number received before
      it was sent. */
  lemma {:induction false} AcksIncrease(es: seq<Event>, i: nat, j: nat)
    requires i < j < |Run(es).log| && Run(es).log[i].Sent? && Run(es).log[j].Sent?
    requires Run(es).log[i].header.ack.Some? && Run(es).log[j].header.ack.Some?
    ensures Run(es).log[i].header.ack.value < Run(es).log[j].header.ack.value == Highest(Run(es).log[..j])
  {
    RunInv(es);
    var log := Run(es).log;
    assert ActionOk(log[..j], log[j]);
    LogOkPrefix(log, j);
    LastAckIs(log[..j], i);
  }

  /** Non-empty frames are numbered 0, 1, 2, ... and empty ones not at all. A frame carries an
      ack exactly when something above the last ack has been received, and then the ack names the
      highest number received. */
  lemma {:induction false} SendsAreNumbered(es: seq<Event>, i: nat)
    requires i < |Run(es).log| && Run(es).log[i].Sent?
    ensures var log, h := Run(es).log, Run(es).log[i].header;
            && h.sequence == (if h.payload == [] then None else Some(Wrap32(Numbered(log[..i]))))
            && (h.ack.Some? <==> LastAck(log[..i]) < Highest(log[..i]))
            && (h.ack.Some? ==> h.ack.value == Highest(log[..i]) > 0)
  {
    RunInv(es);
    assert ActionOk(Run(es).log[..i], Run(es).log[i]);
    LastAckNonNegative(Run(es).log[..i]);
  }

  lemma {:induction false} LastAckNonNegative(log: seq<Action>)
    ensures LastAck(log) >= 0
  {
    if log != [] { LastAckNonNegative(log[..|log| - 1]); }
  }

  /** A numbered frame has been received. */
  ghost predicate Heard(log: seq<Action>)
  {
    exists k | 0 <= k < |log| :: log[k].Took? && log[k].frame.sequence.Some?
  }

  /** An ack of the number has been sent. */
  ghost predicate Acknowledged(log: seq<Action>, number: int)
  {
    exists k | 0 <= k < |log| :: log[k].Sent? && log[k].header.ack.Some? && log[k].header.ack.value == number
  }

  lemma {:induction false} LastAckWasSent(log: seq<Action>)
    requires LastAck(log) != 0
    ensures Acknowledged(log, LastAck(log))
  {
    var n := |log| - 1;
    if !(log[n].Sent? && log[n].header.ack.Some?) {
      LastAckWasSent(log[..n]);
      var k :| 0 <= k < n && log[..n][k].Sent? && log[..n][k].header.ack.Some?
               && log[..n][k].header.ack.value == LastAck(log);
      assert log[k] == log[..n][k];
    }
  }

  lemma LogOkPrefix(log: seq<Action>, i: nat)
    requires LogOk(log) && i <= |log|
    ensures LogOk(log[..i])
  {
    forall k | 0 <= k < i ensures ActionOk(log[..i][..k], log[..i][k]) {
      assert log[..i][..k] == log[..k] && ActionOk(log[..k], log[k]);
    }
  }

  lemma {:induction false} AcksBelowHighest(log: seq<Action>)
    requires LogOk(log)
    ensures LastAck(log) <= Highest(log)
  {
    if log != [] {
      var n := |log| - 1;
      LogOkPrefix(log, n);
      AcksBelowHighest(log[..n]);
      assert ActionOk(log[..n], log[n]);
    }
  }

  /** Once a numbered frame has been received, a frame sent leaves the highest number received
      acknowledged if and only if that number is not zero. */
  lemma {:induction false} HighestIsAcked(es: seq<Event>, i: nat)
    requires i < |Run(es).log| && Run(es).log[i].Sent? && Heard(Run(es).log[..i])
    ensures var log := Run(es).log;
            Acknowledged(log[..i + 1], Highest(log[..i])) <==> Highest(log[..i]) != 0
  {
    RunInv(es);
    var log := Run(es).log;
    assert ActionOk(log[..i], log[i]);
    assert log[..i + 1][i] == log[i];
    if Highest(log[..i]) != 0 {
      if log[i].header.ack.None? {
        LogOkPrefix(log, i);
        AcksBelowHighest(log[..i]);
        LastAckWasSent(log[..i]);
        var k :| 0 <= k < i && log[..i][k].Sent? && log[..i][k].header.ack.Some?
                 && log[..i][k].header.ack.value == Highest(log[..i]);
        assert log[..i + 1][k] == log[..i][k];
      }
    } else if Acknowledged(log[..i + 1], 0) {
      var k :| 0 <= k <= i && log[..i + 1][k].Sent? && log[..i + 1][k].header.ack.Some?
               && log[..i + 1][k].header.ack.value == 0;
      SendsAreNumbered(es, k);
    }
  }

  lemma FirstFrameRead(f: Frame)
    requires f == Frame(Some(0), [1])
    ensures Read(Arrive(INITIAL, f)).0 == Session([], false, 0, 0, 0, [f], [Took(f), Returned(f)])
  {
    var s := Arrive(INITIAL, f);
    assert s.queue == [f] && s.queue[1..] == [];
    assert Take(s).0 == Session([], false, 0, 0, 0, [f], [Took(f)]);
    assert [Took(f)] + [Returned(f)] == [Took(f), Returned(f)];
  }

  lemma RunSnoc(es: seq<Event>, e: Event)
    ensures Run(es + [e]) == Step(Run(es), e)
  {
    assert (es + [e])[..|es|] == es;
  }

  lemma FirstFrameAnswered(f: Frame) returns (es: seq<Event>)
    requires f == Frame(Some(0), [1])
    ensures Run(es).log == [Took(f), Returned(f), Sent(Header(Some(0), None, [2]))]
  {
    hide Read, Arrive;
    RunSnoc([], Arrives(f));
    RunSnoc([] + [Arrives(f)], Reads);
    FirstFrameRead(f);
    es := [] + [Arrives(f)] + [Reads] + [Sends([2])];
    RunSnoc([] + [Arrives(f)] + [Reads], Sends([2]));
  }

  /** A session that gets the first frame of its peer, numbered zero, and answers it: the answer
      carries no ack. */
  lemma ZeroIsNeverAcked()
    ensures exists es :: var log := Run(es).log;
              && |log| == 3 && log[0] == Took(Frame(Some(0), [1])) && log[2] == Sent(Header(Some(0), None, [2]))
              && Heard(log[..2]) && !Acknowledged(log, Highest(log[..2]))
  {
    hide Run;
    var f := Frame(Some(0), [1]);
    var es := FirstFrameAnswered(f);
    var log := Run(es).log;
    assert log[..3] == log && log[..2] == [Took(f), Returned(f)];
    assert [Took(f), Returned(f)][..1] == [Took(f)] && [Took(f)][..0] == [];
    assert Heard(log[..2]) by { assert log[..2][0] == Took(f); }
    HighestIsAcked(es, 2);
  }

  // ---------------------------------------------------------------- what comes in and what goes out

  /** A frame that arrives is queued exactly when the session has not been closed and fewer than 16
      frames are waiting. */
  lemma {:induction false} ArrivalsAreQueued(es: seq<Event>, f: Frame)
    ensures Run(es + [Arrives(f)]).arrived ==
            if Closes !in es && |Run(es).arrived| - |Taken(Run(es).log)| < 16 then Run(es).arrived + [f]
            else Run(es).arrived
  {
    hide Run, Taken, LogOk, NoneWithheld;
    RunSnoc(es, Arrives(f));
    RunInv(es);
    ClosedAfterClose(es);
  }

  lemma {:induction false} ReadKeepsClosed(s: Session)
    ensures Read(s).0.closed == s.closed
    decreases |s.queue|
  {
    if s.queue != [] { ReadKeepsClosed(Take(s).0); }
  }

  lemma {:induction false} ClosedAfterClose(es: seq<Event>)
    ensures Run(es).closed <==> Closes in es
  {
    hide Read;
    if es != [] {
      var before := es[..|es| - 1];
      ClosedAfterClose(before);
      ReadKeepsClosed(Run(before));
      assert es == before + [es[|es| - 1]];
    }
  }

  /** The payloads handed over for sending, and those of the frames sent. */
  function Handed(es: seq<Event>): seq<seq<byte>>
  {
    if es == [] then []
    else Handed(es[..|es| - 1]) + if es[|es| - 1].Sends? then [es[|es| - 1].payload] else []
  }

  function Payloads(log: seq<Action>): seq<seq<byte>>
  {
    if log == [] then []
    else Payloads(log[..|log| - 1]) + if log[|log| - 1].Sent? then [log[|log| - 1].header.payload] else []
  }

  lemma PayloadsSnoc(log: seq<Action>, a: Action)
    ensures Payloads(log + [a]) == Payloads(log) + if a.Sent? then [a.header.payload] else []
  {
    assert (log + [a])[..|log|] == log;
  }

  lemma {:induction false} ReadSendsNothing(s: Session)
    ensures Payloads(Read(s).0.log) == Payloads(s.log)
    decreases |s.queue|
  {
    if s.queue != [] {
      var f := s.queue[0];
      PayloadsSnoc(s.log, Took(f));
      PayloadsSnoc(s.log + [Took(f)], Returned(f));
      ReadSendsNothing(Take(s).0);
    }
  }

  /** Every payload handed over goes out in a frame of its own, whole and in order. */
  lemma {:induction false} PayloadsAreSent(es: seq<Event>)
    ensures Payloads(Run(es).log) == Handed(es)
  {
    hide Read;
    if es != [] {
      var s, e := Run(es[..|es| - 1]), es[|es| - 1];
      PayloadsAreSent(es[..|es| - 1]);
      match e
      case Arrives(_) =>
      case Reads => ReadSendsNothing(s);
      case Sends(payload) => PayloadsSnoc(s.log, Step(s, e).log[|s.log|]);
      case Closes =>
    }
  }

  /** A read returns the frame that it logs as returned, and without a result it has emptied the
      queue and returned nothing. */
  lemma {:induction false} ReadReturns(s: Session)
    ensures var (s', f) := Read(s);
            match f
            case Some(frame) => |s'.log| > |s.log| && s'.log[|s'.log| - 1] == Returned(frame)
            case None => s'.queue == [] && forall i | |s.log| <= i < |s'.log| :: s'.log[i].Took?
    ensures s.log <= Read(s).0.log
    decreases |s.queue|
  {
    if s.queue != [] {
      var (s1, f) := Take(s);
      if f.None? || f.value.payload == [] {
        ReadReturns(s1);
        assert s1.log[|s.log|].Took?;
      }
    }
  }
}
