/** The packet router: it cuts frames into IPX packets and reassembles those it reads. */
module IpxPktRouter {
  import opened Bytes
  import Ipx
  import opened P = IpxPkt

  /** fragmentFrame: a loop with a running offset. */
  method FragmentFrame(frame: seq<byte>) returns (result: seq<seq<byte>>)
    ensures result == Fragments(frame)
  {
    var numFragments := (|frame| + MAX_FRAGMENT_PAYLOAD - 1) / MAX_FRAGMENT_PAYLOAD;
    assert numFragments == NumFragments(|frame|);
    result := [];
    var offset := 0;
    for i := 0 to numFragments
      invariant offset == Min(MAX_FRAGMENT_PAYLOAD * i, |frame|)
      invariant result == Fragments(frame)[..i]
    {
      var nextOffset := offset + MAX_FRAGMENT_PAYLOAD;
      if nextOffset > |frame| {
        nextOffset := |frame|;
      }
      assert frame[offset..nextOffset] == FragmentAt(frame, i);
      result := result + [frame[offset..nextOffset]];
      offset := nextOffset;
    }
  }

  /** processFragment, on the entry that the caller stores back. */
  method FillFragment(fd: Partial, hdr: P.Header, fragment: seq<byte>, now: int)
    returns (fd': Partial, result: Option<seq<byte>>)
    requires GoodHeader(hdr)
    ensures (fd', result) == P.ProcessFragment(fd, hdr, fragment, now)
  {
    if hdr.numFragments != |fd.fragments| {
      return fd, None;
    }
    fd' := Partial(fd.fragments[hdr.fragment - 1 := Some(fragment)], now);
    for i := 0 to |fd'.fragments|
      invariant forall j | 0 <= j < i :: fd'.fragments[j].Some?
    {
      if fd'.fragments[i].None? {
        return fd', None;
      }
    }
    var whole := [];
    for i := 0 to |fd'.fragments|
      invariant whole == Flatten(Values(fd'.fragments)[..i])
    {
      whole := whole + fd'.fragments[i].value;
      assert Values(fd'.fragments)[..i + 1][..i] == Values(fd'.fragments)[..i];
    }
    assert Values(fd'.fragments)[..|fd'.fragments|] == Values(fd'.fragments);
    result := Some(whole);
  }

  class FrameReassembler {
    var frames: Table

    constructor ()
      ensures frames == map[]
    {
      frames := map[];
    }

    /** Walks the table in any order, so that the outcome cannot depend on it. */
    method Flush(now: int) returns (ghost evicted: set<Key>)
      requires frames != map[]
      modifies this
      ensures Evicts(old(frames), now, evicted) && frames == old(frames) - evicted
    {
      var flushKeys: set<Key> := {};
      var oldest: Option<Key> := None;
      var todo := frames.Keys;
      while todo != {}
        invariant todo <= frames.Keys && frames == old(frames)
        invariant flushKeys == ExpiredKeys(frames, now) - todo
        invariant oldest.Some? ==> oldest.value in frames
        invariant forall k | k in frames && k !in todo && !Expired(frames[k], now) ::
                    oldest.Some? && frames[oldest.value].lastRX <= frames[k].lastRX
      {
        var key :| key in todo;
        todo := todo - {key};
        if now > frames[key].lastRX + MAX_AGE {
          flushKeys := flushKeys + {key};
        } else if oldest.None? || frames[key].lastRX < frames[oldest.value].lastRX {
          oldest := Some(key);
        }
      }
      evicted := flushKeys;
      frames := frames - flushKeys;
      if flushKeys == {} {
        ghost var some :| some in old(frames);
        assert oldest.Some?;
        frames := frames - {oldest.value};
        evicted := {oldest.value};
      }
    }

    method Reassemble(p: Piece, now: int) returns (result: Option<seq<byte>>, ghost evicted: set<Key>)
      requires GoodHeader(p.hdr)
      modifies this
      ensures (frames, result) == P.Reassemble(old(frames), p, now, evicted)
      ensures p.hdr.numFragments != 1 && p.key !in old(frames) && |old(frames)| >= MAX_FRAMES ==>
                Evicts(old(frames), now, evicted)
    {
      evicted := {};
      if p.hdr.numFragments == 1 {
        return Some(p.body), evicted;
      }
      if p.key !in frames {
        if |frames| >= MAX_FRAMES {
          evicted := Flush(now);
        }
        frames := frames[p.key := Partial(Fresh(p.hdr.numFragments), 0)];
      }
      assert frames == Opened(old(frames), p, evicted);
      var fd;
      fd, result := FillFragment(frames[p.key], p.hdr, p.body, now);
      if result.None? {
        frames := frames[p.key := fd];
      } else {
        frames := frames - {p.key};
      }
    }
  }

  class Router {
    const addr: Ipx.Addr
    const fr: FrameReassembler
    var packetCounter: u16
    var written: seq<Ipx.Packet>

    constructor (a: Ipx.Addr)
      ensures addr == a && fresh(fr) && fr.frames == map[] && packetCounter == 0 && written == []
    {
      addr, packetCounter, written := a, 0, [];
      fr := new FrameReassembler();
    }

    /** Sends the fragments of a frame under a new packet number. The node takes the first
        `room` of them; after the first refusal the rest are not tried. */
    method WritePacketData(frame: seq<byte>, room: nat)
      requires |frame| >= 6
      modifies this
      ensures packetCounter == (old(packetCounter) + 1) % 0x1_0000
      ensures |written| == |old(written)| + Min(room, NumFragments(|frame|)) && written[..|old(written)|] == old(written)
      ensures forall i: nat | i < Min(room, NumFragments(|frame|)) ::
                written[|old(written)| + i] == Wrapped(addr, frame, packetCounter, i)
      ensures forall i | |old(written)| <= i < |written| ::
                && written[i].header.dest == Ipx.HeaderAddr([0, 0, 0, 0], frame[..6], 0x6181)
                && written[i].header.src == Ipx.HeaderAddr([0, 0, 0, 0], addr, 0x6181)
                && written[i].header.checksum == 0xffff
    {
      packetCounter := (packetCounter + 1) % 0x1_0000;
      var fragments := FragmentFrame(frame);
      for i := 0 to |fragments|
        invariant i <= room && |written| == |old(written)| + i && written[..|old(written)|] == old(written)
        invariant packetCounter == (old(packetCounter) + 1) % 0x1_0000
        invariant forall j: nat | j < i :: written[|old(written)| + j] == Wrapped(addr, frame, packetCounter, j)
        invariant forall j | |old(written)| <= j < |written| ::
                    && written[j].header.dest == Ipx.HeaderAddr([0, 0, 0, 0], frame[..6], 0x6181)
                    && written[j].header.src == Ipx.HeaderAddr([0, 0, 0, 0], addr, 0x6181)
                    && written[j].header.checksum == 0xffff
      {
        if i == room {
          return;
        }
        var hdr1 := Ipx.Header(
          0xffff, (Ipx.HEADER_LENGTH + P.HEADER_LENGTH + TRAIL_BYTES + |fragments[i]|) % 0x1_0000, 0, 0,
          Ipx.HeaderAddr(Ipx.ZERO_NETWORK, frame[0..6], IPX_SOCKET),
          Ipx.HeaderAddr(Ipx.ZERO_NETWORK, addr, IPX_SOCKET));
        var hdr2 := P.Header((i + 1) % 0x100, |fragments| % 0x100, packetCounter);
        written := written + [Ipx.Packet(hdr1, Trail() + MarshalHeader(hdr2) + fragments[i])];
      }
    }

    method UnwrapFrame(packet: Ipx.Packet, now: int) returns (frame: Option<seq<byte>>, ghost e: Event)
      modifies fr
      ensures e.packet == packet && e.now == now && (fr.frames, frame) == Receive(old(fr.frames), e)
      ensures MakesRoom(old(fr.frames), e) ==> Evicts(old(fr.frames), now, e.evicted)
    {
      e := Event(packet, now, {});
      if packet.header.dest.socket != IPX_SOCKET {
        return None, e;
      }
      if |packet.payload| < TRAIL_BYTES + P.HEADER_LENGTH {
        return None, e;
      }
      var payload := packet.payload[TRAIL_BYTES..];
      var hdr := UnmarshalHeader(payload);
      if hdr.None? {
        return None, e;
      }
      ghost var evicted;
      frame, evicted := fr.Reassemble(
        Piece(Key(packet.header.src, hdr.value.packetID), hdr.value, payload[P.HEADER_LENGTH..]), now);
      e := Event(packet, now, evicted);
    }
  }
}
