/** How negotiation with a peer that never answers ends, by the times at which it is polled. */
module Polling {
  import opened Bytes
  import opened Lcp
  import opened Negotiation

  /** Polls at the given times, with every send succeeding. */
  function Ticks(times: seq<int>): (es: seq<Event>)
    ensures |es| == |times|
  {
    seq(|times|, i requires 0 <= i < |times| => Tick(times[i], true))
  }

  /** Nothing but polls: at most five requests go out, numbered from one, and failure comes
      exactly after the fifth. */
  ghost predicate Unanswered(n: Negotiator)
  {
    && !n.localComplete && |n.sent| <= MAX_CONFIGURE_REQUESTS && n.requestSequence == |n.sent| + 1
    && (n.requestSendTime.Some? <==> n.sent != [])
    && (n.failed ==> |n.sent| == MAX_CONFIGURE_REQUESTS)
    && forall i | 0 <= i < |n.sent| :: n.sent[i].SentRequest? && n.sent[i].id == i + 1
  }

  lemma TickKeeps(n: Negotiator, now: int)
    requires Unanswered(n)
    ensures Unanswered(Step(n, Tick(now, true)))
  {
  }

  lemma {:induction false} PollsOnly(n: Negotiator, times: seq<int>)
    requires Unanswered(n)
    ensures PossibleRun(n, Ticks(times)) && Unanswered(Run(n, Ticks(times)))
  {
    if times != [] {
      var before := times[..|times| - 1];
      PollsOnly(n, before);
      assert Ticks(times)[..|times| - 1] == Ticks(before);
      TickKeeps(Run(n, Ticks(before)), times[|times| - 1]);
    }
  }

  /** Polls never go back, and are at most the gap apart. */
  predicate Steady(times: seq<int>, gap: nat)
  {
    forall i | 0 < i < |times| :: times[i - 1] <= times[i] <= times[i - 1] + gap
  }

  /** Each request goes out a timeout after the one before, or up to a gap later. */
  ghost predicate OnTime(n: Negotiator, first: int, last: int, gap: nat)
  {
    && n.requestSendTime.Some? && n.sent != []
    && var sent := n.requestSendTime.value;
       && first + (|n.sent| - 1) * REQUEST_TIMEOUT <= sent <= first + (|n.sent| - 1) * (REQUEST_TIMEOUT + gap)
       && sent <= last
       && (if n.failed then sent + REQUEST_TIMEOUT <= last else last < sent + REQUEST_TIMEOUT)
  }

  lemma TickOnTime(n: Negotiator, first: int, last: int, now: int, gap: nat)
    requires Unanswered(n) && OnTime(n, first, last, gap) && last <= now <= last + gap
    ensures OnTime(Step(n, Tick(now, true)), first, now, gap)
  {
    var k := |n.sent| - 1;
    assert (k + 1) * REQUEST_TIMEOUT == k * REQUEST_TIMEOUT + REQUEST_TIMEOUT;
    assert (k + 1) * (REQUEST_TIMEOUT + gap) == k * (REQUEST_TIMEOUT + gap) + REQUEST_TIMEOUT + gap;
  }

  lemma {:induction false} PollsOnTime(local: Settings, remote: Settings, times: seq<int>, gap: nat)
    requires times != [] && Steady(times, gap)
    ensures PossibleRun(Start(local, remote), Ticks(times))
    ensures OnTime(Run(Start(local, remote), Ticks(times)), times[0], times[|times| - 1], gap)
  {
    hide OnTime;
    var n, before := Start(local, remote), times[..|times| - 1];
    PollsOnly(n, times);
    PollsOnly(n, before);
    assert Ticks(times)[..|times| - 1] == Ticks(before);
    if before == [] {
      FirstOnTime(n, times[0], gap);
    } else {
      PollsOnTime(local, remote, before, gap);
      TickOnTime(Run(n, Ticks(before)), times[0], times[|times| - 2], times[|times| - 1], gap);
    }
  }

  lemma FirstOnTime(n: Negotiator, now: int, gap: nat)
    requires n == Start(n.local, n.remote)
    ensures OnTime(Step(n, Tick(now, true)), now, now, gap)
  {
  }

  lemma GapsAddUp(k: nat, gap: nat)
    ensures k < MAX_CONFIGURE_REQUESTS ==>
              k * (REQUEST_TIMEOUT + gap) + REQUEST_TIMEOUT <= MAX_CONFIGURE_REQUESTS * (REQUEST_TIMEOUT + gap)
  {
    if k < MAX_CONFIGURE_REQUESTS {
      var rest, step := MAX_CONFIGURE_REQUESTS - k, REQUEST_TIMEOUT + gap;
      assert MAX_CONFIGURE_REQUESTS * step == k * step + rest * step;
      assert rest * step >= step;
    }
  }

  /** Polls, given by their positions, of which each is a timeout or more after the one before. */
  ghost predicate Apart(times: seq<int>, polls: seq<nat>)
  {
    && (forall j | 0 <= j < |polls| :: polls[j] < |times|)
    && forall j | 0 < j < |polls| ::
         polls[j - 1] < polls[j] && times[polls[j - 1]] + REQUEST_TIMEOUT <= times[polls[j]]
  }

  /** The requests, and the failure after them, are such polls. */
  ghost predicate SendsApart(n: Negotiator, times: seq<int>, polls: seq<nat>)
  {
    && Apart(times, polls)
    && |polls| == |n.sent| + (if n.failed then 1 else 0)
    && (!n.failed && polls != [] ==> n.requestSendTime == Some(times[polls[|polls| - 1]]))
  }

  predicate DueAt(n: Negotiator, now: int)
  {
    n.requestSendTime.None? || n.requestSendTime.value + REQUEST_TIMEOUT <= now
  }

  /** A poll that is due sends a request, or fails after the fifth. */
  lemma TickDoes(n: Negotiator, now: int)
    requires Unanswered(n)
    ensures var n' := Step(n, Tick(now, true));
            if n.failed || !DueAt(n, now) then n' == n
            else if |n.sent| < MAX_CONFIGURE_REQUESTS
            then !n'.failed && |n'.sent| == |n.sent| + 1 && n'.requestSendTime == Some(now)
            else n' == n.(failed := true)
  {
  }

  lemma RunTicks(n: Negotiator, times: seq<int>)
    requires times != [] && Unanswered(n)
    ensures var before, last := times[..|times| - 1], times[|times| - 1];
            && PossibleRun(n, Ticks(times)) && PossibleRun(n, Ticks(before))
            && Unanswered(Run(n, Ticks(before)))
            && Run(n, Ticks(times)) == Step(Run(n, Ticks(before)), Tick(last, true))
  {
    hide Step;
    PollsOnly(n, times);
    PollsOnly(n, times[..|times| - 1]);
    assert Ticks(times)[..|times| - 1] == Ticks(times[..|times| - 1]);
  }

  lemma TickApart(n: Negotiator, times: seq<int>, polls: seq<nat>)
    requires times != [] && Unanswered(n) && SendsApart(n, times[..|times| - 1], polls)
    ensures var n', now := Step(n, Tick(times[|times| - 1], true)), times[|times| - 1];
            SendsApart(n', times, if !n.failed && DueAt(n, now) then polls + [|times| - 1] else polls)
  {
    hide Step, Apart;
    TickDoes(n, times[|times| - 1]);
    ApartBounds(times[..|times| - 1], polls);
    if !n.failed && DueAt(n, times[|times| - 1]) { ApartSnoc(times, polls); } else { ApartAfter(times, polls); }
  }

  lemma {:induction false} SomeApart(local: Settings, remote: Settings, times: seq<int>) returns (polls: seq<nat>)
    ensures PossibleRun(Start(local, remote), Ticks(times))
    ensures SendsApart(Run(Start(local, remote), Ticks(times)), times, polls)
  {
    hide Step, Ticks, Run, SendsApart;
    var n := Start(local, remote);
    if times == [] {
      polls := [];
      NothingSent(local, remote);
    } else {
      var before, now := times[..|times| - 1], times[|times| - 1];
      polls := SomeApart(local, remote, before);
      RunTicks(n, times);
      var n1 := Run(n, Ticks(before));
      TickApart(n1, times, polls);
      polls := if !n1.failed && DueAt(n1, now) then polls + [|before|] else polls;
    }
  }

  lemma NoTicks(n: Negotiator)
    ensures PossibleRun(n, Ticks([])) && Run(n, Ticks([])) == n
  {
  }

  lemma NothingSent(local: Settings, remote: Settings)
    ensures PossibleRun(Start(local, remote), Ticks([])) && SendsApart(Run(Start(local, remote), Ticks([])), [], [])
  {
    hide Ticks, Run;
    NoTicks(Start(local, remote));
  }

  lemma ApartBounds(times: seq<int>, polls: seq<nat>)
    ensures polls == [0] && times != [] ==> Apart(times, polls)
    ensures Apart(times, polls) && polls != [] ==> polls[0] < |times| && polls[|polls| - 1] < |times|
    ensures Apart(times, polls) && |times| == 1 ==> |polls| <= 1
  {
    if |polls| > 1 { assert Apart(times, polls) ==> polls[0] < polls[1] < |times|; }
  }

  lemma ApartAfter(times: seq<int>, polls: seq<nat>)
    requires times != [] && Apart(times[..|times| - 1], polls)
    ensures Apart(times, polls)
  {
  }

  lemma ApartSnoc(times: seq<int>, polls: seq<nat>)
    requires times != [] && Apart(times[..|times| - 1], polls)
    requires polls != [] ==> times[polls[|polls| - 1]] + REQUEST_TIMEOUT <= times[|times| - 1]
    ensures Apart(times, polls + [|times| - 1])
  {
    var polls' := polls + [|times| - 1];
    forall j | 0 < j < |polls'|
      ensures polls'[j - 1] < polls'[j] && times[polls'[j - 1]] + REQUEST_TIMEOUT <= times[polls'[j]]
    {
      if j < |polls| { assert polls[j - 1] < polls[j]; }
    }
  }

  /** No polls that far apart outrun the requests. */
  ghost predicate KeepsUp(n: Negotiator, times: seq<int>, polls: seq<nat>)
    requires Apart(times, polls) && polls != []
  {
    && times != [] && n.requestSendTime.Some? && n.requestSendTime.value <= times[|times| - 1]
    && (!n.failed ==>
          && |polls| <= |n.sent|
          && (|polls| == |n.sent| ==> n.requestSendTime.value <= times[polls[|polls| - 1]]))
  }

  lemma {:induction false} NoneApart(local: Settings, remote: Settings, times: seq<int>, polls: seq<nat>)
    requires Apart(times, polls) && polls != []
    requires forall i | 0 < i < |times| :: times[i - 1] <= times[i]
    ensures PossibleRun(Start(local, remote), Ticks(times))
    ensures KeepsUp(Run(Start(local, remote), Ticks(times)), times, polls)
    decreases |times|
  {
    hide Step, Ticks, Run, Apart;
    assert polls[0] < |times| && polls[|polls| - 1] < |times| by { ApartBounds(times, polls); }
    var n, before, now, k := Start(local, remote), times[..|times| - 1], times[|times| - 1], |polls|;
    RunTicks(n, times);
    TickDoes(Run(n, Ticks(before)), now);
    if before == [] {
      NoTicks(n);
      ApartBounds(times, polls);
    } else {
      ApartBounds(before, [0]);
      NoneApart(local, remote, before, [0]);
      if polls[k - 1] < |before| {
        ApartBefore(times, polls, k);
        NoneApart(local, remote, before, polls);
      } else if k > 1 {
        ApartInit(times, polls);
        ApartBefore(times, polls[..k - 1], k - 1);
        NoneApart(local, remote, before, polls[..k - 1]);
      }
    }
  }

  lemma ApartInit(times: seq<int>, polls: seq<nat>)
    requires Apart(times, polls) && |polls| > 1
    ensures var k := |polls|;
            && Apart(times, polls[..k - 1]) && polls[k - 2] < polls[k - 1] < |times|
            && times[polls[k - 2]] + REQUEST_TIMEOUT <= times[polls[k - 1]]
  {
  }

  lemma {:induction false} ApartBefore(times: seq<int>, polls: seq<nat>, k: nat)
    requires Apart(times, polls) && k == |polls| > 0 && polls[k - 1] < |times| - 1
    ensures Apart(times[..|times| - 1], polls)
  {
    if k > 1 {
      assert polls[k - 2] < polls[k - 1];
      ApartBefore(times, polls[..k - 1], k - 1);
      assert forall j | 0 <= j < k - 1 :: polls[j] == polls[..k - 1][j];
    }
  }

  /** A silent peer is sent at most five requests, numbered one to five, however it is polled. As
      long as the clock does not go back, failure comes if and only if there are six polls of
      which each is a timeout or more after the one before. If polls are also at most a gap
      apart, it comes no sooner than five timeouts after the first poll, and no later than five
      timeouts and five gaps after it. */
  lemma {:induction false} SilentPeer(local: Settings, remote: Settings, times: seq<int>, gap: nat)
    ensures PossibleRun(Start(local, remote), Ticks(times))
    ensures Unanswered(Run(Start(local, remote), Ticks(times)))
    ensures (forall i | 0 < i < |times| :: times[i - 1] <= times[i]) ==>
              (Run(Start(local, remote), Ticks(times)).failed <==>
                exists polls :: |polls| == MAX_CONFIGURE_REQUESTS + 1 && Apart(times, polls))
    ensures times != [] && Steady(times, gap) ==>
              var n, wait := Run(Start(local, remote), Ticks(times)), times[|times| - 1] - times[0];
              && (n.failed ==> wait >= MAX_CONFIGURE_REQUESTS * REQUEST_TIMEOUT)
              && (wait >= MAX_CONFIGURE_REQUESTS * (REQUEST_TIMEOUT + gap) ==>
                    n.failed && |n.sent| == MAX_CONFIGURE_REQUESTS)
  {
    hide Apart, Ticks, Run;
    PollsOnly(Start(local, remote), times);
    var n := Run(Start(local, remote), Ticks(times));
    if forall i | 0 < i < |times| :: times[i - 1] <= times[i] {
      var some := SomeApart(local, remote, times);
      forall polls | |polls| == MAX_CONFIGURE_REQUESTS + 1 && Apart(times, polls) ensures n.failed {
        NoneApart(local, remote, times, polls);
      }
    }
    if times != [] && Steady(times, gap) {
      PollsOnTime(local, remote, times, gap);
      GapsAddUp(|n.sent| - 1, gap);
    }
  }

  // ---------------------------------------------------------------- a peer that acks

  /** Configure-Ack is type 2. */
  predicate IsAck(e: Event) { e.Recv? && e.m.kind == 2 }

  /** A Configure-Ack was received, and no error came before it. */
  predicate Answered(n: Negotiator, es: seq<Event>)
    requires PossibleRun(n, es)
  {
    && es != []
    && var before := es[..|es| - 1];
       Answered(n, before) || (IsAck(es[|es| - 1]) && !Run(n, before).failed)
  }

  lemma StepCompletes(n: Negotiator, e: Event)
    requires Possible(n, e)
    ensures Step(n, e).localComplete <==> n.localComplete || (IsAck(e) && !n.failed)
  {
    hide Answer, Carried, Updated, Acceptable;
  }

  /** Our side is complete exactly when a Configure-Ack was received before any error. */
  lemma {:induction false} CompleteWhenAnswered(n: Negotiator, es: seq<Event>)
    requires PossibleRun(n, es)
    ensures Run(n, es).localComplete <==> n.localComplete || Answered(n, es)
  {
    hide Step;
    if es != [] {
      CompleteWhenAnswered(n, es[..|es| - 1]);
      StepCompletes(Run(n, es[..|es| - 1]), es[|es| - 1]);
    }
  }

  /** Once our side is complete or has failed, polls do nothing. */
  lemma {:induction false} IdlePolls(n: Negotiator, es: seq<Event>, more: seq<Event>)
    requires PossibleRun(n, es) && (Run(n, es).localComplete || Run(n, es).failed)
    requires forall i | 0 <= i < |more| :: more[i].Tick?
    ensures PossibleRun(n, es + more) && Run(n, es + more) == Run(n, es)
  {
    if more == [] {
      assert es + more == es;
    } else {
      var k := |more| - 1;
      IdlePolls(n, es, more[..k]);
      assert (es + more)[..|es + more| - 1] == es + more[..k];
    }
  }

  /** From the Ack on, no poll sends anything or fails, whenever it comes. */
  lemma {:induction false} AnsweredPeerIsLeftAlone(n: Negotiator, es: seq<Event>, more: seq<Event>)
    requires PossibleRun(n, es) && Answered(n, es) && forall i | 0 <= i < |more| :: more[i].Tick?
    ensures PossibleRun(n, es + more) && Run(n, es + more) == Run(n, es)
  {
    CompleteWhenAnswered(n, es);
    IdlePolls(n, es, more);
  }

  /** A peer that acks in time: if the polls before its Configure-Ack do not include six of which
      each is a timeout or more after the one before, negotiation completes and the timeout never
      comes, however long polls go on; if they do, the Ack is too late. */
  lemma {:induction false} AckInTime(local: Settings, remote: Settings, times: seq<int>, ack: Event, more: seq<Event>)
    requires IsAck(ack) && WellTyped(ack.m) && forall i | 0 <= i < |more| :: more[i].Tick?
    requires forall i | 0 < i < |times| :: times[i - 1] <= times[i]
    ensures var n, es := Start(local, remote), Ticks(times) + [ack] + more;
            && PossibleRun(n, Ticks(times)) && PossibleRun(n, es)
            && var n' := Run(n, es);
               && n'.sent == Run(n, Ticks(times)).sent
               && n'.localComplete == !n'.failed
               && (n'.failed <==> exists polls :: |polls| == MAX_CONFIGURE_REQUESTS + 1 && Apart(times, polls))
  {
    hide Apart, Ticks;
    var n, before := Start(local, remote), Ticks(times);
    SilentPeer(local, remote, times, 0);
    var answered := before + [ack];
    assert answered[..|answered| - 1] == before;
    assert PossibleRun(n, answered);
    CompleteWhenAnswered(n, answered);
    IdlePolls(n, answered, more);
  }
}
