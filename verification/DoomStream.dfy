/** The relay's receive window: a ring of 32 slots indexed by tic number. */
module DoomStream {
  import opened Bytes
  import opened Doom

  class Stream {
    const window: array<Option<seq<byte>>>
    var windowHead: u32
    var windowTail: u32

    // The commands of the game so far, and everything received.
    ghost var log: map<nat, seq<byte>>
    ghost var events: seq<Event>

    ghost function Model(): Game
      reads `windowHead, `log
    {
      Game(windowHead, log)
    }

    ghost predicate Ring()
      reads `windowHead, `windowTail, `log, window
    {
      && window.Length == WINDOW_SIZE
      && windowTail == Tail(windowHead)
      && RingHolds(window[..], windowHead, log)
    }

    /** The stream is where the packets received have brought it. */
    ghost predicate Valid()
      reads this, window
    {
      Ring() && Storable(events) && Model() == After(events)
    }

    constructor ()
      ensures Valid() && Model() == NEW_GAME && events == []
    {
      window := new Option<seq<byte>>[WINDOW_SIZE](_ => None);
      windowHead, windowTail, log, events := 0, 0, map[], [];
    }

    /** A new game: the slots keep their old contents, and none of them is read again. */
    method HandleSetupPacket()
      requires Valid()
      modifies this
      ensures Valid() && Model() == NEW_GAME && events == old(events) + [Setup]
    {
      windowHead, windowTail, log := 0, 0, map[];
      events := events + [Setup];
      AfterSnoc(old(events), Setup);
    }

    method AdvanceTo(ticNum: u32)
      requires Ring() && ticNum + 1 < 0x1_0000_0000
      modifies `windowHead, `windowTail, `log, window
      ensures Ring() && windowHead == Max(old(windowHead), ticNum + 1) && log == old(log)
    {
      hide RingHolds;
      while ticNum >= windowHead
        invariant Ring() && log == old(log)
        invariant old(windowHead) <= windowHead <= Max(old(windowHead), ticNum + 1)
      {
        RingAdvances(window[..], windowHead, log);
        window[windowHead % WINDOW_SIZE] := None;
        windowHead := windowHead + 1;
        if windowHead - windowTail > WINDOW_SIZE {
          windowTail := windowHead - WINDOW_SIZE;
        }
      }
    }

    /** One turn of the loop over a packet's tics. */
    method AddTic(ticNum: u32, command: seq<byte>)
      requires Ring() && ticNum + 1 < 0x1_0000_0000
      modifies `windowHead, `windowTail, `log, window
      ensures Ring() && windowHead == Max(old(windowHead), ticNum + 1)
      ensures log == old(log)[ticNum as nat := command]
    {
      hide RingHolds;
      if ticNum >= windowTail {
        AdvanceTo(ticNum);
        RingStores(window[..], windowHead, log, ticNum, command);
        window[ticNum % WINDOW_SIZE] := Some(command);
      } else {
        RingStores(window[..], windowHead, log, ticNum, command);
      }
      log := log[ticNum as nat := command];
    }

    method AddNewTics(gp: GamePacket) returns (nextTic: u32)
      requires Ring() && Relayed(gp) && Fits(windowHead, gp)
      modifies `windowHead, `windowTail, `log, window
      ensures Ring() && Model() == Learn(old(Model()), gp)
      ensures nextTic == ExpandTicNum(gp.startTic, old(windowHead)) + gp.numTics
    {
      var startTic := ExpandTicNum(gp.startTic, windowHead);
      for i := 0 to gp.numTics
        invariant Ring() && log == Received(old(log), gp, startTic, i)
        invariant windowHead == if i == 0 then old(windowHead) else Max(old(windowHead), startTic + i)
      {
        AddTic(startTic + i, Chunk(gp, i));
      }
      return startTic + gp.numTics;
    }

    /** What the window holds for a tic between its tail and its head. */
    method Slot(tic: nat) returns (command: Option<seq<byte>>)
      requires Ring() && windowTail <= tic < windowHead
      ensures command == if tic in log then Some(log[tic]) else None
    {
      RingReads(window[..], windowHead, log, tic);
      command := window[tic % WINDOW_SIZE];
    }

    method TicsToSend(endTic: u32) returns (idx: u32, count: nat)
      requires Ring() && endTic <= windowHead
      ensures count == KnownRun(log, windowTail, endTic, SEND_EXTRA_TICS) && idx == endTic - count
    {
      hide RingHolds, KnownRun;
      count := 0;
      idx := endTic;
      while count < SEND_EXTRA_TICS && idx > windowTail
        invariant count <= SEND_EXTRA_TICS && idx == endTic - count
        invariant KnownRun(log, windowTail, endTic, SEND_EXTRA_TICS)
               == count + KnownRun(log, windowTail, idx, SEND_EXTRA_TICS - count)
      {
        KnownRunStep(log, windowTail, idx, SEND_EXTRA_TICS - count);
        var command := Slot(idx - 1);
        if command.None? {
          break;
        }
        count := count + 1;
        idx := idx - 1;
      }
      KnownRunStep(log, windowTail, idx, SEND_EXTRA_TICS - count);
    }

    /** The commands of consecutive tics that the window holds. */
    method JoinTics(startTic: u32, numTics: nat) returns (commands: seq<byte>)
      requires Ring() && (numTics > 0 ==> windowTail <= startTic) && startTic + numTics <= windowHead
      requires forall t: nat | startTic <= t < startTic + numTics :: t in log
      ensures commands == Join(log, startTic, startTic + numTics)
    {
      hide RingHolds;
      commands := [];
      for i := 0 to numTics
        invariant commands == Join(log, startTic, startTic + i)
      {
        var command := Slot(startTic + i);
        commands := commands + command.value;
      }
    }

    /** The ring gives the same answer as the unbounded log, for every packet of every run. */
    method HandleGamePacket(gp: GamePacket) returns (r: GamePacket)
      requires Valid() && (Relayed(gp) ==> Fits(windowHead, gp))
      modifies this, window
      ensures Valid() && events == old(events) + [Packet(gp)]
      ensures (Model(), r) == Reply(old(Model()), gp)
      ensures windowHead - windowTail <= 32
      ensures r.checksum == gp.checksum && r.retransmitFrom == gp.retransmitFrom && r.player == gp.player
      ensures gp.checksum % 0x4000_0000 >= 0x2000_0000 || gp.numTics == 0 ==> r == gp && Model() == old(Model())
    {
      hide Learn, Answer, Fits, After, Storable, RingHolds;
      RepliesKeepTheRest(Model(), gp);
      events := events + [Packet(gp)];
      AfterSnoc(old(events), Packet(gp));
      if SetupBit(gp.checksum) || gp.numTics == 0 {
        return gp;
      }
      var nextTic := AddNewTics(gp);
      r := BuildReply(gp, nextTic);
    }

    /** The rest of handleGamePacket, once the tics of the packet are stored. */
    method BuildReply(gp: GamePacket, nextTic: u32) returns (r: GamePacket)
      requires Ring() && nextTic <= windowHead
      ensures r == Answer(Model(), gp, nextTic)
    {
      var startTic, numTics := TicsToSend(nextTic);
      var commands := JoinTics(startTic, numTics);
      r := gp.(startTic := startTic % 0x100, numTics := numTics, commands := commands);
    }
  }
}
