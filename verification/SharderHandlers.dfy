/** The sharder as the proxy runs it: handlers that update the connection in place and hand
    encoded packets to the two send callbacks. A callback is modelled by the list of packets
    it was given and by a parameter that says whether this call of it succeeds. */
module SharderHandlers {
  import opened Bytes
  import opened S = Sharder

  class ReliableSharder {
    var phase: Phase
    var rxseq: u32
    var rxack: u32
    var txseq: u32
    var txack: u32
    var txqueue: seq<byte>
    var toUpstream: seq<seq<byte>>
    var toDownstream: seq<seq<byte>>

    // History that the code does not keep.
    ghost var accepted: seq<Message>
    ghost var acks: seq<Message>
    ghost var frags: seq<Message>
    ghost var acked: nat
    ghost var events: seq<Event>

    ghost function Model(): Link
      reads `phase, `rxseq, `rxack, `txseq, `txack, `txqueue, `accepted, `acks, `frags, `acked
    {
      Link(phase, rxseq, rxack, txseq, txack, txqueue, accepted, acks, frags, acked)
    }

    /** The callbacks were given exactly the encoded messages of the history. */
    ghost predicate Encoded()
      reads `toUpstream, `toDownstream, `acks, `frags
    {
      && |toUpstream| == |acks| && (forall i | 0 <= i < |acks| :: toUpstream[i] == Marshal(acks[i]))
      && |toDownstream| == |frags| && (forall i | 0 <= i < |frags| :: toDownstream[i] == Marshal(frags[i]))
    }

    /** The connection is where the packets received have brought it. */
    ghost predicate Valid()
      reads this
    {
      Encoded() && Model() == Run(events)
    }

    constructor ()
      ensures Valid() && Model() == INITIAL
    {
      phase, txqueue := Receiving, [];
      rxseq, rxack, txseq, txack := 0, 0, 0, 0;
      toUpstream, toDownstream := [], [];
      accepted, acks, frags, acked, events := [], [], [], 0, [];
    }

    method StateTransition(from: Phase, to: Phase)
      modifies this`phase
      ensures phase == if old(phase) == from then to else old(phase)
    {
      if phase == from {
        phase := to;
      }
    }

    method SendUpstream(rm: Message)
      requires Encoded()
      modifies this`toUpstream, this`acks
      ensures Encoded() && acks == old(acks) + [rm]
    {
      toUpstream := toUpstream + [Marshal(rm)];
      acks := acks + [rm];
    }

    method SendDownstream(rm: Message)
      requires Encoded()
      modifies this`toDownstream, this`frags
      ensures Encoded() && frags == old(frags) + [rm]
    {
      toDownstream := toDownstream + [Marshal(rm)];
      frags := frags + [rm];
    }

    method SendNext(ok: bool) returns (failed: bool)
      requires Encoded()
      modifies this
      ensures Encoded() && events == old(events) && Model() == S.SendNext(old(Model()))
      ensures failed <==> frags != old(frags) && !ok
    {
      hide Encoded;
      if txack != txseq {
        return false;
      }
      if phase == SentEOM || phase == EOMAcked {
        return false;
      }
      if |txqueue| == 0 {
        return false;
      }
      var nbytes := VANILLA_QUAKE_MTU - RELIABLE_HEADER_LENGTH;
      if nbytes > |txqueue| {
        nbytes := |txqueue|;
      }
      var rm := Message(FLAG_DATA, txseq, txqueue[..nbytes]);
      txqueue := txqueue[nbytes..];
      if phase == ReceivedEOM && |txqueue| == 0 {
        rm := rm.(flags := rm.flags + FLAG_EOM);
        StateTransition(ReceivedEOM, SentEOM);
      }
      txseq := Wrap32(txseq + 1);
      SendDownstream(rm);
      return !ok;
    }

    method SendAck(ok: bool) returns (failed: bool)
      requires Encoded()
      modifies this
      ensures Encoded() && events == old(events) && Model() == S.SendAck(old(Model()))
      ensures failed <==> old(rxseq != rxack) && !ok
    {
      if rxseq == rxack {
        return false;
      }
      SendUpstream(Message(FLAG_ACK, Wrap32(rxseq - 1), []));
      rxack := rxseq;
      return !ok;
    }

    /** The first half of receiveFromUpstream, once the packet is decoded. */
    method Ingest(rm: Message)
      requires Encoded()
      modifies this
      ensures Encoded() && events == old(events) && Model() == Accept(old(Model()), rm)
    {
      if rm.sequence == rxseq {
        StateTransition(EOMAcked, Receiving);
        txqueue := txqueue + rm.payload;
        rxseq := Wrap32(rxseq + 1);
        accepted := accepted + [rm];
        if EomBit(rm.flags) {
          StateTransition(Receiving, ReceivedEOM);
        }
      }
    }

    method ReceiveFromUpstream(msg: Packet, ackOk: bool, nextOk: bool) returns (r: Outcome)
      requires Valid()
      modifies this
      ensures Valid() && events == old(events) + [Upstream(msg, ackOk, nextOk)]
      ensures (Model(), r) == FromUpstream(old(Model()), msg, ackOk, nextOk)
    {
      hide Run, Encoded;
      events := events + [Upstream(msg, ackOk, nextOk)];
      RunSnoc(old(events), Upstream(msg, ackOk, nextOk));
      var flags := Big16(msg[0..2]);
      if UnreliableBit(flags) {
        return NotOurs;
      }
      if !DataBit(flags) {
        return NotOurs;
      }
      var decoded := Unmarshal(msg);
      if decoded.None? {
        return Failed;
      }
      var rm := decoded.value;
      Ingest(rm);
      // The end of a message is not acked until downstream has acked ours.
      if phase == Receiving || phase == EOMAcked {
        var ackFailed := SendAck(ackOk);
        if ackFailed {
          return Failed;
        }
      }
      var nextFailed := SendNext(nextOk);
      return if nextFailed then Failed else Handled;
    }

    /** The second half of receiveFromDownstream, once the ack is known to be the next one. */
    method Advance(sendOk: bool) returns (failed: bool)
      requires Encoded()
      modifies this
      ensures Encoded() && events == old(events) && Model() == Acked(old(Model()))
      ensures failed <==> Model() != TakeAck(old(Model())) && !sendOk
    {
      hide Encoded;
      txack := Wrap32(txack + 1);
      acked := acked + 1;
      StateTransition(SentEOM, EOMAcked);
      assert Model() == TakeAck(old(Model()));
      if phase == EOMAcked {
        failed := SendAck(sendOk);
      } else {
        failed := SendNext(sendOk);
      }
    }

    method ReceiveFromDownstream(msg: Packet, sendOk: bool) returns (r: Outcome)
      requires Valid()
      modifies this
      ensures Valid() && events == old(events) + [Downstream(msg, sendOk)]
      ensures (Model(), r) == FromDownstream(old(Model()), msg, sendOk)
    {
      hide Run, Encoded, Acked, TakeAck;
      events := events + [Downstream(msg, sendOk)];
      RunSnoc(old(events), Downstream(msg, sendOk));
      var flags := Big16(msg[0..2]);
      if UnreliableBit(flags) {
        return NotOurs;
      }
      if !AckBit(flags) {
        return NotOurs;
      }
      var decoded := Unmarshal(msg);
      if decoded.None? {
        return Failed;
      }
      var rm := decoded.value;
      if rm.sequence == txack {
        var failed := Advance(sendOk);
        if failed {
          return Failed;
        }
      }
      return Handled;
    }

    /** Everything ever handed to a callback fits the MTU of the original game, and says so. */
    lemma PacketsAreSound()
      requires Valid()
      ensures forall i | 0 <= i < |toUpstream| :: |toUpstream[i]| == 8 && LengthField(toUpstream[i]) == 8
      ensures forall i | 0 <= i < |toDownstream| ::
                8 < |toDownstream[i]| <= 1024 && LengthField(toDownstream[i]) == |toDownstream[i]|
    {
      forall i | 0 <= i < |toUpstream| ensures |toUpstream[i]| == 8 && LengthField(toUpstream[i]) == 8 {
        PacketsCarryTheirLength(events, i);
      }
      forall i | 0 <= i < |toDownstream|
        ensures 8 < |toDownstream[i]| <= 1024 && LengthField(toDownstream[i]) == |toDownstream[i]|
      {
        PacketsCarryTheirLength(events, i);
      }
    }
  }
}
