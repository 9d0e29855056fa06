/** A GRE session as it runs. */
module GreSession {
  import opened Bytes
  import G = Gre

  class Session {
    var recvQueue: seq<G.Frame>
    var closed: bool
    var sentSeq: u32
    var recvSeq: u32
    var recvAcked: u32

    ghost var arrived: seq<G.Frame>
    ghost var log: seq<G.Action>

    ghost function Model(): G.Session
      reads this
    {
      G.Session(recvQueue, closed, sentSeq, recvSeq, recvAcked, arrived, log)
    }

    constructor ()
      ensures Model() == G.INITIAL
    {
      recvQueue, closed, sentSeq, recvSeq, recvAcked := [], false, 0, 0, 0;
      arrived, log := [], [];
    }

    /** What processPacket does with a frame for this session. */
    method Enqueue(f: G.Frame) returns (queued: bool)
      modifies this
      ensures Model() == G.Arrive(old(Model()), f)
      ensures queued <==> old(!closed && |recvQueue| < G.RECV_QUEUE_SIZE)
    {
      if closed {
        return false;
      }
      if |recvQueue| >= G.RECV_QUEUE_SIZE {
        return false;
      }
      recvQueue := recvQueue + [f];
      arrived := arrived + [f];
      return true;
    }

    /** A frame that is out of sequence gives no result. */
    method RecvPacket() returns (r: Option<G.Frame>)
      requires recvQueue != []
      modifies this
      ensures (Model(), r) == G.Take(old(Model()))
    {
      var pkt := recvQueue[0];
      recvQueue := recvQueue[1..];
      log := log + [G.Took(pkt)];
      if pkt.sequence.Some? {
        if pkt.sequence.value < recvSeq {
          return None;
        }
        recvSeq := pkt.sequence.value;
      }
      return Some(pkt);
    }

    method Read() returns (r: Option<G.Frame>)
      modifies this
      ensures (Model(), r) == G.Read(old(Model()))
    {
      while recvQueue != []
        invariant G.Read(Model()) == G.Read(old(Model()))
        decreases |recvQueue|
      {
        var f := RecvPacket();
        if f.Some? && |f.value.payload| > 0 {
          log := log + [G.Returned(f.value)];
          return f;
        }
      }
      return None;
    }

    method SendPacket(frame: seq<byte>) returns (header: G.Header)
      modifies this
      ensures Model() == G.Send(old(Model()), frame) && log == old(log) + [G.Sent(header)]
    {
      header := G.Header(None, None, frame);
      if |frame| > 0 {
        header := header.(sequence := Some(sentSeq));
        sentSeq := Wrap32(sentSeq + 1);
      }
      if recvAcked < recvSeq {
        header := header.(ack := Some(recvSeq));
        recvAcked := recvSeq;
      }
      log := log + [G.Sent(header)];
    }

    method Close()
      modifies this`closed
      ensures Model() == G.Step(old(Model()), G.Closes)
    {
      if !closed {
        closed := true;
      }
    }
  }
}
