/** Doom game packets carry a run of tic commands, named by the low byte of the first tic
    number. This module specifies the relayed stream over an unbounded log of everything
    received since the game began. */
module Doom {
  import opened Bytes

  const WINDOW_SIZE := 32
  const SEND_EXTRA_TICS := 5

  datatype GamePacket = GamePacket(
    checksum: u32, retransmitFrom: byte, startTic: byte, player: byte, numTics: byte, commands: seq<byte>)

  predicate SetupBit(checksum: u32) { checksum / 0x2000_0000 % 2 == 1 }

  // ---------------------------------------------------------------- tic numbers

  function ExpandTicNum(low: byte, base: u32): (tic: u32)
  {
    var result := base - base % 0x100 + low;
    if result > base && result - base > 64 then Wrap32(result - 256)
    else if result < base && base - result > 64 then Wrap32(result + 256)
    else result
  }

  /** The signed 32-bit distance from base to tic. */
  function Distance(tic: u32, base: u32): (d: int)
  {
    var d := Wrap32(tic - base);
    if d < 0x8000_0000 then d else d - 0x1_0000_0000
  }

  lemma DistanceOf(base: u32, d: int)
    requires -0x8000_0000 <= d < 0x8000_0000
    ensures Distance(Wrap32(base + d), base) == d
  {
  }

  lemma DistanceBack(tic: u32, base: u32)
    ensures tic == Wrap32(base + Distance(tic, base))
    ensures -0x8000_0000 <= Distance(tic, base) < 0x8000_0000
    ensures Distance(tic, base) % 0x100 == (tic - base) % 0x100
  {
  }

  /** How far the low byte reaches: to the same block of 256, unless that is over 64 away. */
  function Reach(low: byte, base: u32): int
  {
    var e := low - base % 0x100;
    if e > 64 then e - 256 else if e < -64 then e + 256 else e
  }

  lemma ExpandReaches(low: byte, base: u32)
    ensures ExpandTicNum(low, base) == Wrap32(base + Reach(low, base))
    ensures Distance(ExpandTicNum(low, base), base) == Reach(low, base)
  {
    DistanceOf(base, Reach(low, base));
  }

  /** Every answer has the given low byte and is at most 191 tics away. */
  lemma {:induction false} ExpandTicNumIsNear(low: byte, base: u32)
    ensures ExpandTicNum(low, base) % 0x100 == low
    ensures -191 <= Distance(ExpandTicNum(low, base), base) <= 191
  {
    ExpandReaches(low, base);
    ReachHasLowByte(low, base);
  }

  lemma ReachHasLowByte(low: byte, base: u32)
    ensures Wrap32(base + Reach(low, base)) % 0x100 == low
  {
    var x := base + Reach(low, base);
    assert x % 0x100 == low;
    assert x == x / 0x1_0000_0000 * 0x1_0000_0000 + Wrap32(x);
  }

  /** A tic is recovered from its low byte exactly when it is within 64 of the base, or
      within 191 of it and in another block of 256. */
  lemma {:induction false} ExpandTicNumRecovers(tic: u32, base: u32)
    ensures ExpandTicNum(tic % 0x100, base) == tic <==>
            var d := Distance(tic, base);
            -64 <= d <= 64 || (-191 <= d <= 191 && tic / 0x100 != base / 0x100)
  {
    var d, e := Distance(tic, base), tic % 0x100 - base % 0x100;
    ReachIsDistance(tic, base);
    SameBlock(tic, base);
    ReachDecides(d, e);
  }

  lemma ReachIsDistance(tic: u32, base: u32)
    ensures ExpandTicNum(tic % 0x100, base) == tic <==> Reach(tic % 0x100, base) == Distance(tic, base)
    ensures (Distance(tic, base) - (tic % 0x100 - base % 0x100)) % 0x100 == 0
  {
    ExpandReaches(tic % 0x100, base);
    DistanceBack(tic, base);
    LowBytes(Distance(tic, base), tic, base);
  }

  lemma LowBytes(d: int, tic: u32, base: u32)
    requires d % 0x100 == (tic - base) % 0x100
    ensures (d - (tic % 0x100 - base % 0x100)) % 0x100 == 0
  {
  }

  lemma ReachDecides(d: int, e: int)
    requires -255 <= e <= 255 && (d - e) % 0x100 == 0
    ensures d == (if e > 64 then e - 256 else if e < -64 then e + 256 else e) <==>
            -64 <= d <= 64 || (-191 <= d <= 191 && d != e)
  {
    var k := (d - e) / 0x100;
    assert d == e + 0x100 * k;
  }

  lemma SameBlock(tic: u32, base: u32)
    ensures tic / 0x100 == base / 0x100 <==> Distance(tic, base) == tic % 0x100 - base % 0x100
  {
    var e := tic % 0x100 - base % 0x100;
    DistanceOf(base, e);
    DistanceBack(tic, base);
    assert tic - base == (tic / 0x100 - base / 0x100) * 0x100 + e;
  }

  // ---------------------------------------------------------------- the stream over an unbounded log

  /** What is known of the current game: every command received, by tic number. Tics below
      the tail of the window are no longer relayed. */
  datatype Game = Game(head: u32, log: map<nat, seq<byte>>)

  const NEW_GAME := Game(0, map[])

  function Tail(head: u32): u32 { if head > WINDOW_SIZE then head - WINDOW_SIZE else 0 }

  function TicLen(gp: GamePacket): (n: nat)
    requires gp.numTics > 0
    ensures n * gp.numTics <= |gp.commands|
  {
    |gp.commands| / gp.numTics
  }

  lemma ChunkBounds(len: nat, n: nat, i: nat)
    requires i < n
    ensures 0 <= len * i <= len * (i + 1) <= len * n
  {
    ScaledOrder(0, i, len);
    ScaledOrder(i, i + 1, len);
    ScaledOrder(i + 1, n, len);
  }

  /** The command for the i-th tic of a packet. */
  function Chunk(gp: GamePacket, i: nat): (c: seq<byte>)
    requires i < gp.numTics
    ensures |c| == TicLen(gp)
  {
    ChunkBounds(TicLen(gp), gp.numTics, i);
    gp.commands[TicLen(gp) * i..TicLen(gp) * (i + 1)]
  }

  /** Adds the first n commands of a packet, whose first tic is start. */
  function Received(log: map<nat, seq<byte>>, gp: GamePacket, start: nat, n: nat): map<nat, seq<byte>>
    requires n <= gp.numTics
  {
    if n == 0 then log else Received(log, gp, start, n - 1)[start + n - 1 := Chunk(gp, n - 1)]
  }

  /** The number of consecutive known tics, at most cap, that end just before end. */
  function KnownRun(log: map<nat, seq<byte>>, tail: nat, end: nat, cap: nat): (k: nat)
    ensures k <= cap && k <= end && (k > 0 ==> tail <= end - k)
    ensures forall t | end - k <= t < end :: t in log
    ensures k == cap || end - k <= tail || end - k - 1 !in log
  {
    if cap == 0 || end <= tail || end - 1 !in log then 0 else 1 + KnownRun(log, tail, end - 1, cap - 1)
  }

  /** One turn of the backward scan. */
  lemma KnownRunStep(log: map<nat, seq<byte>>, tail: nat, end: nat, cap: nat)
    ensures cap > 0 && tail < end && end - 1 in log ==>
              KnownRun(log, tail, end, cap) == 1 + KnownRun(log, tail, end - 1, cap - 1)
    ensures cap == 0 || end <= tail || end - 1 !in log ==> KnownRun(log, tail, end, cap) == 0
  {
  }

  function Join(log: map<nat, seq<byte>>, start: nat, end: nat): seq<byte>
    requires forall t | start <= t < end :: t in log
  {
    if start >= end then [] else Join(log, start, end - 1) + log[end - 1]
  }

  predicate Relayed(gp: GamePacket) { !SetupBit(gp.checksum) && gp.numTics != 0 }

  /** No tic of the packet is numbered 2^32 - 1, which no window head can pass. */
  predicate Fits(head: u32, gp: GamePacket)
  {
    ExpandTicNum(gp.startTic, head) + gp.numTics < 0x1_0000_0000
  }

  function TicOf(head: u32, gp: GamePacket, i: nat): u32 { Wrap32(ExpandTicNum(gp.startTic, head) + i) }

  /** One turn of the loop that shifts a window forward, given by its head and tail. */
  function Shift(window: (u32, u32)): (u32, u32)
  {
    var head := Wrap32(window.0 + 1);
    (head, if Wrap32(head - window.1) > WINDOW_SIZE then Wrap32(head - WINDOW_SIZE) else window.1)
  }

  function Shifts(window: (u32, u32), k: nat): (u32, u32)
  {
    if k == 0 then window else Shift(Shifts(window, k - 1))
  }

  /** After some number of turns the head is past the tic, and the loop is left. */
  ghost predicate ShiftingEnds(window: (u32, u32), tic: u32)
  {
    exists k: nat :: tic < Shifts(window, k).0
  }

  lemma {:induction false} ShiftsHead(window: (u32, u32), k: nat)
    ensures Shifts(window, k).0 == Wrap32(window.0 + k)
  {
    if k > 0 {
      ShiftsHead(window, k - 1);
      NextCounter(window.0 + k - 1);
      assert Shift(Shifts(window, k - 1)).0 == Wrap32(Shifts(window, k - 1).0 + 1);
    }
  }

  lemma {:induction false} ShiftingEndsUnlessLast(window: (u32, u32), tic: u32)
    ensures ShiftingEnds(window, tic) <==> tic != 0xffff_ffff
  {
    if tic != 0xffff_ffff {
      var k := if tic < window.0 then 0 else tic + 1 - window.0;
      ShiftsHead(window, k);
    }
  }

  /** The packets that can be stored are exactly those for which the loop ends at every tic, from
      whatever window it is entered; the others keep the handler from ever returning. */
  lemma {:induction false} FitsExactly(head: u32, gp: GamePacket)
    requires Relayed(gp)
    ensures Fits(head, gp) <==>
            forall i: nat, window: (u32, u32) | i < gp.numTics :: ShiftingEnds(window, TicOf(head, gp, i))
  {
    forall i: nat, window: (u32, u32) | i < gp.numTics
      ensures ShiftingEnds(window, TicOf(head, gp, i)) <==> TicOf(head, gp, i) != 0xffff_ffff
    {
      ShiftingEndsUnlessLast(window, TicOf(head, gp, i));
    }
    if !Fits(head, gp) {
      var i: nat := 0xffff_ffff - ExpandTicNum(gp.startTic, head);
      assert TicOf(head, gp, i) == 0xffff_ffff;
      assert !ShiftingEnds((0, 0), TicOf(head, gp, i));
    }
  }

  /** In a new game, a packet with one tic whose low byte is 255 is such a packet. */
  lemma FirstPacketHangs(commands: seq<byte>)
    ensures var gp := GamePacket(0, 0, 255, 0, 1, commands);
            && Relayed(gp) && !Fits(NEW_GAME.head, gp)
            && !ShiftingEnds((NEW_GAME.head, Tail(NEW_GAME.head)), TicOf(NEW_GAME.head, gp, 0))
  {
    ShiftingEndsUnlessLast((0, 0), 0xffff_ffff);
  }

  function Learn(g: Game, gp: GamePacket): Game
    requires Relayed(gp) && Fits(g.head, gp)
  {
    var start := ExpandTicNum(gp.startTic, g.head);
    Game(Max(g.head, start + gp.numTics), Received(g.log, gp, start, gp.numTics))
  }

  /** The packet sent on: the known tics that end just before end. */
  function Answer(g: Game, gp: GamePacket, end: nat): GamePacket
  {
    var k := KnownRun(g.log, Tail(g.head), end, SEND_EXTRA_TICS);
    gp.(startTic := (end - k) % 0x100, numTics := k, commands := Join(g.log, end - k, end))
  }

  function Reply(g: Game, gp: GamePacket): (r: (Game, GamePacket))
    requires Relayed(gp) ==> Fits(g.head, gp)
  {
    if !Relayed(gp) then (g, gp)
    else (Learn(g, gp), Answer(Learn(g, gp), gp, ExpandTicNum(gp.startTic, g.head) + gp.numTics))
  }

  /** What a reply keeps of the packet it is made from: always the checksum, the retransmission
      number and the player, and all of a packet that sets up a game, by bit 29 of its checksum,
      or has no tics; such a packet leaves the game as it was, and any other is taken into it. */
  lemma {:induction false} RepliesKeepTheRest(g: Game, gp: GamePacket)
    requires Relayed(gp) ==> Fits(g.head, gp)
    ensures var r := Reply(g, gp).1;
            r.checksum == gp.checksum && r.retransmitFrom == gp.retransmitFrom && r.player == gp.player
    ensures gp.checksum % 0x4000_0000 >= 0x2000_0000 || gp.numTics == 0 ==> Reply(g, gp) == (g, gp)
    ensures gp.checksum % 0x4000_0000 < 0x2000_0000 && gp.numTics > 0 ==>
              ExpandTicNum(gp.startTic, g.head) + gp.numTics <= Reply(g, gp).0.head
  {
    hide SetupBit, ExpandTicNum, KnownRun, Join, Received, Fits;
    SetupBitIs29(gp.checksum);
  }

  lemma SetupBitIs29(checksum: u32)
    ensures SetupBit(checksum) <==> checksum % 0x4000_0000 >= 0x2000_0000
  {
    var q := checksum / 0x2000_0000;
    assert checksum == q * 0x2000_0000 + checksum % 0x2000_0000;
    assert q == q / 2 * 2 + q % 2;
  }

  datatype Event = Setup | Packet(gp: GamePacket)

  /** Every packet of the run can be stored. */
  predicate Storable(es: seq<Event>)
    decreases |es|, 0
  {
    es == [] ||
    var before, e := es[..|es| - 1], es[|es| - 1];
    Storable(before) && (e.Packet? && Relayed(e.gp) ==> Fits(After(before).head, e.gp))
  }

  function After(es: seq<Event>): Game
    requires Storable(es)
    decreases |es|, 1
  {
    if es == [] then NEW_GAME
    else match es[|es| - 1]
      case Setup => NEW_GAME
      case Packet(gp) => Reply(After(es[..|es| - 1]), gp).0
  }

  lemma AfterSnoc(es: seq<Event>, e: Event)
    requires Storable(es) && (e.Packet? && Relayed(e.gp) ==> Fits(After(es).head, e.gp))
    ensures Storable(es + [e])
    ensures After(es + [e]) == if e.Setup? then NEW_GAME else Reply(After(es), e.gp).0
  {
    hide Reply, Fits, Relayed;
    assert (es + [e])[..|es|] == es;
  }

  /** The number of games begun. */
  function Games(es: seq<Event>): nat
  {
    if es == [] then 0 else Games(es[..|es| - 1]) + if es[|es| - 1].Setup? then 1 else 0
  }

  // ---------------------------------------------------------------- faithful relaying

  /** What the sending node really played: a command for each tic of each game. */
  type Truth = (nat, nat) -> seq<byte>

  ghost predicate SameLengths(truth: Truth)
  {
    forall g: nat, s: nat, t: nat :: |truth(g, s)| == |truth(g, t)|
  }

  ghost function TrueJoin(truth: Truth, g: nat, start: nat, end: nat): seq<byte>
  {
    if start >= end then [] else TrueJoin(truth, g, start, end - 1) + truth(g, end - 1)
  }

  /** The packet carries the true commands for the tics [tic, tic + numTics). */
  ghost predicate Carries(truth: Truth, g: nat, gp: GamePacket, tic: nat)
  {
    gp.startTic == tic % 0x100 && gp.commands == TrueJoin(truth, g, tic, tic + gp.numTics)
  }

  /** A sender is heard within 64 tics of the newest one known. */
  ghost predicate FaithfulPacket(truth: Truth, g: nat, head: u32, gp: GamePacket)
  {
    Relayed(gp) ==>
      exists tic: nat :: head - 64 <= tic <= head + 64 && tic + gp.numTics < 0x1_0000_0000 && Carries(truth, g, gp, tic)
  }

  ghost predicate Faithful(truth: Truth, es: seq<Event>)
  {
    es == [] ||
    var before, e := es[..|es| - 1], es[|es| - 1];
    && Storable(before) && Faithful(truth, before)
    && (e.Packet? ==> FaithfulPacket(truth, Games(before), After(before).head, e.gp))
  }

  ghost predicate LogTrue(truth: Truth, g: nat, log: map<nat, seq<byte>>)
  {
    forall t: nat | t in log :: log[t] == truth(g, t)
  }

  lemma {:induction false} TrueJoinLength(truth: Truth, g: nat, start: nat, end: nat)
    requires SameLengths(truth) && start <= end
    ensures |TrueJoin(truth, g, start, end)| == |truth(g, start)| * (end - start)
    decreases end
  {
    if start < end {
      TrueJoinLength(truth, g, start, end - 1);
      assert |truth(g, start)| * (end - start) == |truth(g, start)| * (end - 1 - start) + |truth(g, start)|;
    }
  }

  /** The i-th piece of equally long commands is the i-th command. */
  lemma {:induction false} TrueJoinPiece(truth: Truth, g: nat, start: nat, end: nat, i: nat)
    requires SameLengths(truth) && start + i < end
    ensures var len := |truth(g, start)|;
            && 0 <= len * i <= len * (i + 1) <= |TrueJoin(truth, g, start, end)|
            && TrueJoin(truth, g, start, end)[len * i..len * (i + 1)] == truth(g, start + i)
    decreases end
  {
    var len := |truth(g, start)|;
    TrueJoinLength(truth, g, start, end);
    TrueJoinLength(truth, g, start, end - 1);
    ChunkBounds(len, end - start, i);
    if start + i < end - 1 {
      TrueJoinPiece(truth, g, start, end - 1, i);
    } else {
      assert len * i == |TrueJoin(truth, g, start, end - 1)|;
    }
  }

  lemma ChunkIsTrue(truth: Truth, g: nat, gp: GamePacket, tic: nat, i: nat)
    requires SameLengths(truth) && Carries(truth, g, gp, tic) && i < gp.numTics
    ensures Chunk(gp, i) == truth(g, tic + i)
  {
    var len := |truth(g, tic)|;
    TrueJoinLength(truth, g, tic, tic + gp.numTics);
    DivideOut(len, gp.numTics);
    TrueJoinPiece(truth, g, tic, tic + gp.numTics, i);
  }

  lemma ScaledOrder(a: nat, b: nat, n: nat)
    requires a <= b
    ensures a * n <= b * n && n * a <= n * b
  {
    assert b * n == a * n + (b - a) * n;
  }

  lemma FromScaled(a: nat, b: nat, n: nat)
    requires n > 0
    ensures a * n < (b + 1) * n ==> a <= b
  {
    if a > b { ScaledOrder(b + 1, a, n); }
  }

  lemma DivideOut(len: nat, n: nat)
    requires n > 0
    ensures len * n / n == len
  {
    var q := len * n / n;
    assert q * n <= len * n < (q + 1) * n;
    FromScaled(len, q, n);
    FromScaled(q, len, n);
  }

  lemma {:induction false} ReceivedIsTrue(truth: Truth, g: nat, log: map<nat, seq<byte>>, gp: GamePacket, tic: nat, n: nat)
    requires SameLengths(truth) && LogTrue(truth, g, log) && Carries(truth, g, gp, tic) && n <= gp.numTics
    ensures LogTrue(truth, g, Received(log, gp, tic, n))
  {
    if n > 0 {
      ReceivedIsTrue(truth, g, log, gp, tic, n - 1);
      ChunkIsTrue(truth, g, gp, tic, n - 1);
    }
  }

  lemma {:induction false} JoinIsTrue(truth: Truth, g: nat, log: map<nat, seq<byte>>, start: nat, end: nat)
    requires LogTrue(truth, g, log) && forall t: nat | start <= t < end :: t in log
    ensures Join(log, start, end) == TrueJoin(truth, g, start, end)
    decreases end
  {
    if start < end { JoinIsTrue(truth, g, log, start, end - 1); }
  }

  /** The tic a faithful sender means is the one the relay computes. */
  lemma TicIsRecovered(truth: Truth, g: nat, head: u32, gp: GamePacket, tic: nat)
    requires head - 64 <= tic <= head + 64 && tic + gp.numTics < 0x1_0000_0000 && Carries(truth, g, gp, tic)
    ensures ExpandTicNum(gp.startTic, head) == tic && Fits(head, gp)
  {
    DistanceOf(head, tic - head);
    ExpandTicNumRecovers(tic, head);
  }

  lemma {:induction false} RunIsTrue(truth: Truth, es: seq<Event>)
    requires SameLengths(truth) && Faithful(truth, es)
    ensures Storable(es) && LogTrue(truth, Games(es), After(es).log)
  {
    if es != [] {
      var before, e := es[..|es| - 1], es[|es| - 1];
      RunIsTrue(truth, before);
      if e.Packet? && Relayed(e.gp) {
        var g, head := Games(before), After(before).head;
        var tic: nat :| head - 64 <= tic <= head + 64 && tic + e.gp.numTics < 0x1_0000_0000
                        && Carries(truth, g, e.gp, tic);
        TicIsRecovered(truth, g, head, e.gp, tic);
        ReceivedIsTrue(truth, g, After(before).log, e.gp, tic, e.gp.numTics);
      }
    }
  }

  /** Faithful relaying: in every run of a faithful sender, through any number of games, the
      packet sent on for each packet received carries exactly the true commands of the current
      game for its tics, and ends with the last tic received. */
  lemma {:induction false} RepliesAreTrue(truth: Truth, es: seq<Event>, gp: GamePacket)
    requires SameLengths(truth) && Faithful(truth, es + [Packet(gp)]) && Relayed(gp)
    ensures Storable(es) && Fits(After(es).head, gp)
    ensures var end := ExpandTicNum(gp.startTic, After(es).head) + gp.numTics;
            var r := Reply(After(es), gp).1;
            && Carries(truth, Games(es), gp, end - gp.numTics)
            && r.numTics <= 5 && r.numTics <= end
            && Carries(truth, Games(es), r, end - r.numTics)
  {
    hide Carries, Reply, LogTrue;
    assert (es + [Packet(gp)])[..|es|] == es;
    RunIsTrue(truth, es);
    var g, head := Games(es), After(es).head;
    var tic: nat :| head - 64 <= tic <= head + 64 && tic + gp.numTics < 0x1_0000_0000 && Carries(truth, g, gp, tic);
    TicIsRecovered(truth, g, head, gp, tic);
    ReplyIsTrue(truth, g, After(es), gp, tic);
  }

  lemma ReplyIsTrue(truth: Truth, g: nat, game: Game, gp: GamePacket, tic: nat)
    requires SameLengths(truth) && LogTrue(truth, g, game.log) && Relayed(gp)
    requires game.head - 64 <= tic <= game.head + 64
    requires tic + gp.numTics < 0x1_0000_0000 && Carries(truth, g, gp, tic)
    ensures Fits(game.head, gp)
    ensures var r := Reply(game, gp).1;
            && r.numTics <= SEND_EXTRA_TICS && r.numTics <= tic + gp.numTics
            && Carries(truth, g, r, tic + gp.numTics - r.numTics)
  {
    hide Carries, Answer, ExpandTicNum;
    TicIsRecovered(truth, g, game.head, gp, tic);
    ReceivedIsTrue(truth, g, game.log, gp, tic, gp.numTics);
    AnswerIsTrue(truth, g, Learn(game, gp), gp, tic + gp.numTics);
  }

  lemma AnswerIsTrue(truth: Truth, g: nat, game: Game, gp: GamePacket, end: nat)
    requires LogTrue(truth, g, game.log)
    ensures var r := Answer(game, gp, end);
            r.numTics <= SEND_EXTRA_TICS && r.numTics <= end && Carries(truth, g, r, end - r.numTics)
  {
    JoinIsTrue(truth, g, game.log, end - Answer(game, gp, end).numTics, end);
  }

  /** The window head is one past the newest tic of the game, however late packets arrive. */
  lemma {:induction false} HeadIsNewest(es: seq<Event>)
    requires Storable(es)
    ensures forall t: nat | t in After(es).log :: t < After(es).head
    ensures After(es).head > 0 ==> After(es).head - 1 in After(es).log
  {
    if es != [] {
      var before, e := es[..|es| - 1], es[|es| - 1];
      HeadIsNewest(before);
      if e.Packet? && Relayed(e.gp) {
        var g := After(before);
        ReceivedHas(g.log, e.gp, ExpandTicNum(e.gp.startTic, g.head), e.gp.numTics);
      }
    }
  }

  // ---------------------------------------------------------------- nothing received is held back

  lemma {:induction false} ReceivedHas(log: map<nat, seq<byte>>, gp: GamePacket, start: nat, n: nat)
    requires n <= gp.numTics
    ensures forall t: nat :: t in Received(log, gp, start, n) <==> t in log || start <= t < start + n
    ensures forall t: nat | start <= t < start + n :: Received(log, gp, start, n)[t] == Chunk(gp, t - start)
  {
    if n > 0 { ReceivedHas(log, gp, start, n - 1); }
  }

  lemma {:induction false} JoinSplits(log: map<nat, seq<byte>>, start: nat, mid: nat, end: nat)
    requires start <= mid <= end && forall t: nat | start <= t < end :: t in log
    ensures Join(log, start, end) == Join(log, start, mid) + Join(log, mid, end)
    decreases end
  {
    if mid < end {
      JoinSplits(log, start, mid, end - 1);
      assert Join(log, start, mid) + Join(log, mid, end - 1) + log[end - 1]
          == Join(log, start, mid) + (Join(log, mid, end - 1) + log[end - 1]);
    }
  }

  /** The commands of a packet, joined again from the log. */
  lemma {:induction false} JoinReceived(log: map<nat, seq<byte>>, gp: GamePacket, start: nat, n: nat)
    requires n <= gp.numTics && gp.numTics > 0
    requires forall t: nat | start <= t < start + n :: t in log && log[t] == Chunk(gp, t - start)
    ensures TicLen(gp) * n <= |gp.commands|
    ensures Join(log, start, start + n) == gp.commands[..TicLen(gp) * n]
  {
    if n > 0 {
      JoinReceived(log, gp, start, n - 1);
      ChunkBounds(TicLen(gp), gp.numTics, n - 1);
      assert gp.commands[..TicLen(gp) * (n - 1)] + Chunk(gp, n - 1) == gp.commands[..TicLen(gp) * n];
    }
  }

  /** A packet of at most five tics, none more than 32 behind the newest one known, is contained in
      the packet sent on: the latter has as many tics or more and ends with the same commands. */
  lemma {:induction false} InputIsContained(g: Game, gp: GamePacket)
    requires Relayed(gp) && Fits(g.head, gp)
    requires gp.numTics <= 5 && g.head <= ExpandTicNum(gp.startTic, g.head) + 32
    ensures var r, sent := Reply(g, gp).1, |gp.commands| / gp.numTics * gp.numTics;
            && gp.numTics <= r.numTics
            && r.startTic == (gp.startTic + gp.numTics - r.numTics) % 0x100
            && sent <= |r.commands| && r.commands[|r.commands| - sent..] == gp.commands[..sent]
  {
    hide ExpandTicNum, Answer;
    var start := ExpandTicNum(gp.startTic, g.head);
    ExpandTicNumIsNear(gp.startTic, g.head);
    LearnHas(g, gp);
    AnswerContains(Learn(g, gp), gp, start);
    SameLowByte(start, gp.numTics - Reply(g, gp).1.numTics);
  }

  lemma LearnHas(g: Game, gp: GamePacket)
    requires Relayed(gp) && Fits(g.head, gp)
    requires gp.numTics <= SEND_EXTRA_TICS && Tail(g.head) <= ExpandTicNum(gp.startTic, g.head)
    ensures var start, g' := ExpandTicNum(gp.startTic, g.head), Learn(g, gp);
            && Tail(g'.head) <= start
            && forall t: nat | start <= t < start + gp.numTics :: t in g'.log && g'.log[t] == Chunk(gp, t - start)
  {
    ReceivedHas(g.log, gp, ExpandTicNum(gp.startTic, g.head), gp.numTics);
  }

  lemma SameLowByte(a: nat, d: int)
    ensures (a + d) % 0x100 == (a % 0x100 + d) % 0x100
  {
  }

  lemma AnswerContains(g: Game, gp: GamePacket, start: nat)
    requires 0 < gp.numTics <= SEND_EXTRA_TICS && Tail(g.head) <= start
    requires forall t: nat | start <= t < start + gp.numTics :: t in g.log && g.log[t] == Chunk(gp, t - start)
    ensures var r, sent := Answer(g, gp, start + gp.numTics), TicLen(gp) * gp.numTics;
            && gp.numTics <= r.numTics <= start + gp.numTics
            && r.startTic == (start + gp.numTics - r.numTics) % 0x100
            && sent <= |r.commands| && r.commands[|r.commands| - sent..] == gp.commands[..sent]
  {
    hide Chunk, TicLen, Join, KnownRun, Tail;
    var r, end := Answer(g, gp, start + gp.numTics), start + gp.numTics;
    JoinSplits(g.log, end - r.numTics, start, end);
    JoinReceived(g.log, gp, start, gp.numTics);
  }

  // ---------------------------------------------------------------- the ring

  /** The 32 slots hold the log between tail and head, and nothing else is ever read. */
  ghost predicate RingHolds(window: seq<Option<seq<byte>>>, head: nat, log: map<nat, seq<byte>>)
  {
    && |window| == WINDOW_SIZE
    && (forall t: nat | t in log :: t < head)
    && forall t: nat | head <= t + WINDOW_SIZE && t < head ::
         window[t % WINDOW_SIZE] == if t in log then Some(log[t]) else None
  }

  lemma RingReads(window: seq<Option<seq<byte>>>, head: nat, log: map<nat, seq<byte>>, tic: nat)
    requires RingHolds(window, head, log) && tic < head <= tic + WINDOW_SIZE
    ensures window[tic % WINDOW_SIZE] == if tic in log then Some(log[tic]) else None
  {
  }

  lemma RingAdvances(window: seq<Option<seq<byte>>>, head: nat, log: map<nat, seq<byte>>)
    requires RingHolds(window, head, log)
    ensures RingHolds(window[head % WINDOW_SIZE := None], head + 1, log)
  {
    var window' := window[head % WINDOW_SIZE := None];
    forall t: nat | head < t + WINDOW_SIZE && t <= head
      ensures window'[t % WINDOW_SIZE] == if t in log then Some(log[t]) else None
    {
      if t < head { SlotsDiffer(t, head); }
    }
  }

  lemma RingStores(window: seq<Option<seq<byte>>>, head: nat, log: map<nat, seq<byte>>, tic: nat, command: seq<byte>)
    requires RingHolds(window, head, log) && tic < head
    ensures tic + WINDOW_SIZE < head ==> RingHolds(window, head, log[tic := command])
    ensures head <= tic + WINDOW_SIZE ==> RingHolds(window[tic % WINDOW_SIZE := Some(command)], head, log[tic := command])
  {
    forall t: nat | head <= t + WINDOW_SIZE && t < head && t != tic && head <= tic + WINDOW_SIZE
      ensures t % WINDOW_SIZE != tic % WINDOW_SIZE
    {
      SlotsDiffer(t, tic);
    }
  }

  lemma SlotsDiffer(s: nat, t: nat)
    requires s != t && s < t + WINDOW_SIZE && t < s + WINDOW_SIZE
    ensures s % WINDOW_SIZE != t % WINDOW_SIZE
  {
  }
}
