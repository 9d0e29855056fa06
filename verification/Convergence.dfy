/** With a peer that takes advice, option negotiation comes to an end. */
module Convergence {
  import opened Bytes
  import opened Lcp
  import opened Negotiation

  /** A reply to a request, for some order of walking the map. */
  ghost predicate Replies(remote: Settings, opts: seq<Opt>, r: Reply)
  {
    exists order :: Lists(order, Missing(remote, opts)) && r == Answer(remote, opts, order)
  }

  function Without(opts: seq<Opt>, kinds: set<byte>): seq<Opt>
  {
    if opts == [] then []
    else Without(opts[..|opts| - 1], kinds) + if opts[|opts| - 1].kind in kinds then [] else [opts[|opts| - 1]]
  }

  /** Every option that is also in the advice takes its value from there. */
  function Adopted(opts: seq<Opt>, advice: seq<Opt>): (r: seq<Opt>)
    ensures |r| == |opts|
  {
    seq(|opts|, i requires 0 <= i < |opts| =>
      if ValueOf(advice, opts[i].kind).Some? then Opt(opts[i].kind, ValueOf(advice, opts[i].kind).value) else opts[i])
  }

  /** A cooperative peer's next request: it drops what was rejected, adopts every value it was
      advised of, and adds the options it had left out. */
  function Next(opts: seq<Opt>, r: Reply): seq<Opt>
  {
    match r
    case Ack(_) => opts
    case Reject(unknown) => Without(opts, Kinds(unknown))
    case Nak(advice) => Adopted(opts, advice) + Without(advice, Kinds(opts))
  }

  /** However the maps are walked, the peer is acked after at most k further requests. */
  ghost predicate AckedWithin(remote: Settings, opts: seq<Opt>, k: nat)
    decreases k
  {
    forall r | Replies(remote, opts, r) :: r.Ack? || (k > 0 && AckedWithin(remote, Next(opts, r), k - 1))
  }

  /** Something acceptable can be suggested for every option. */
  predicate CanAdvise(remote: Settings)
  {
    forall k | k in remote :: remote[k].validate == NonNegotiable ==> remote[k].value.Some?
  }

  lemma {:induction false} WithoutKinds(opts: seq<Opt>, kinds: set<byte>)
    ensures Kinds(Without(opts, kinds)) == Kinds(opts) - kinds
    ensures forall k | k !in kinds :: ValueOf(Without(opts, kinds), k) == ValueOf(opts, k)
  {
    hide ValueOf, Kinds;
    if opts == [] {
      NoKinds(opts);
    } else {
      var init, o := opts[..|opts| - 1], opts[|opts| - 1];
      WithoutKinds(init, kinds);
      assert opts == init + [o];
      ValueOfSnoc(init, o);
      if o.kind in kinds {
        assert Without(opts, kinds) == Without(init, kinds);
      } else {
        ValueOfSnoc(Without(init, kinds), o);
      }
    }
  }

  lemma {:induction false} AdoptedValue(opts: seq<Opt>, advice: seq<Opt>, kind: byte)
    ensures ValueOf(Adopted(opts, advice), kind)
         == if ValueOf(opts, kind).Some? && ValueOf(advice, kind).Some? then ValueOf(advice, kind) else ValueOf(opts, kind)
  {
    if opts != [] {
      AdoptedValue(opts[..|opts| - 1], advice, kind);
      assert Adopted(opts, advice)[..|opts| - 1] == Adopted(opts[..|opts| - 1], advice);
    }
  }

  /** What a cooperative peer asks for after a Nak: the advice where there is any. */
  lemma NextValue(opts: seq<Opt>, advice: seq<Opt>, kind: byte)
    ensures ValueOf(Next(opts, Nak(advice)), kind)
         == if ValueOf(advice, kind).Some? then ValueOf(advice, kind) else ValueOf(opts, kind)
  {
    var extra := Without(advice, Kinds(opts));
    ValueOfConcat(Adopted(opts, advice), extra, kind);
    AdoptedValue(opts, advice, kind);
    WithoutKinds(advice, Kinds(opts));
    ValueOfKind(opts, kind);
    ValueOfKind(extra, kind);
    ValueOfKind(advice, kind);
  }

  /** A Nak advises on the bad options, present or missing, and on nothing else. */
  lemma AdviceValue(remote: Settings, opts: seq<Opt>, r: Reply, kind: byte)
    requires Replies(remote, opts, r) && r.Nak?
    ensures ValueOf(r.opts, kind)
         == if kind in Bad(remote, opts) then Some(Suggestion(remote, kind).data) else None
  {
    var order :| Lists(order, Missing(remote, opts)) && r == Answer(remote, opts, order);
    CorrectionsValue(remote, Bad(remote, opts), opts, kind);
    SuggestionsValue(remote, order, kind);
    ValueOfConcat(Corrections(remote, Bad(remote, opts), opts), Suggestions(remote, order), kind);
    assert kind in order <==> kind in Missing(remote, opts);
  }

  /** The request that follows a Nak asks only for known options. */
  lemma NextIsKnown(remote: Settings, opts: seq<Opt>, r: Reply)
    requires Replies(remote, opts, r) && r.Nak?
    ensures Unknown(remote, Next(opts, r)) == []
  {
    var opts' := Next(opts, r);
    UnknownNone(remote, opts);
    forall k | k in Kinds(opts') ensures k in remote {
      ValueOfKind(opts', k);
      NextValue(opts, r.opts, k);
      AdviceValue(remote, opts, r, k);
      ValueOfKind(opts, k);
    }
    UnknownNone(remote, opts');
  }

  lemma NakThenAck(remote: Settings, opts: seq<Opt>, r: Reply)
    requires CanAdvise(remote) && Replies(remote, opts, r) && r.Nak?
    ensures AckedWithin(remote, Next(opts, r), 0)
  {
    var opts' := Next(opts, r);
    NextIsKnown(remote, opts, r);
    forall k | k in remote ensures Accepts(remote[k], ValueOf(opts', k)) {
      NextValue(opts, r.opts, k);
      AdviceValue(remote, opts, r, k);
    }
  }

  lemma {:induction false} UnknownKinds(remote: Settings, opts: seq<Opt>)
    ensures Kinds(Unknown(remote, opts)) == Kinds(opts) - remote.Keys
  {
    if opts != [] {
      var init, o := opts[..|opts| - 1], opts[|opts| - 1];
      UnknownKinds(remote, init);
      assert opts == init + [o];
      ValueOfSnoc(init, o);
      if o.kind in remote {
        assert Unknown(remote, opts) == Unknown(remote, init);
      } else {
        ValueOfSnoc(Unknown(remote, init), o);
      }
    }
  }

  /** What each reply means: a Reject names exactly the unknown options; an Ack repeats a
      request whose every option is known and whose values, absent ones included, are all
      accepted; and a Nak advises on exactly the options whose values are not. */
  lemma RepliesMean(remote: Settings, opts: seq<Opt>, r: Reply)
    requires Replies(remote, opts, r)
    ensures r.Reject? <==> !(Kinds(opts) <= remote.Keys)
    ensures r.Reject? ==> Kinds(r.opts) == Kinds(opts) - remote.Keys
    ensures r.Ack? <==> Kinds(opts) <= remote.Keys && forall k | k in remote :: Accepts(remote[k], ValueOf(opts, k))
    ensures r.Ack? ==> r.opts == opts
    ensures r.Nak? ==> Kinds(r.opts) == set k | k in remote && !Accepts(remote[k], ValueOf(opts, k))
  {
    UnknownNone(remote, opts);
    UnknownKinds(remote, opts);
    assert Bad(remote, opts) == {} <==> forall k | k in remote :: Accepts(remote[k], ValueOf(opts, k)) by {
      if Bad(remote, opts) == {} { assert forall k | k in remote :: k !in Bad(remote, opts); }
    }
    if r.Nak? {
      forall k: byte ensures k in Kinds(r.opts) <==> k in Bad(remote, opts) {
        AdviceValue(remote, opts, r, k);
        ValueOfKind(r.opts, k);
      }
      KindsAre(r.opts, Bad(remote, opts));
    }
  }

  function KindList(opts: seq<Opt>): (kinds: seq<byte>)
    ensures |kinds| == |opts|
  {
    if opts == [] then [] else KindList(opts[..|opts| - 1]) + [opts[|opts| - 1].kind]
  }

  lemma {:induction false} KindListConcat(a: seq<Opt>, b: seq<Opt>)
    ensures KindList(a + b) == KindList(a) + KindList(b)
  {
    if b == [] {
      assert a + b == a;
    } else {
      KindListConcat(a, b[..|b| - 1]);
      assert (a + b)[..|a + b| - 1] == a + b[..|b| - 1];
    }
  }

  lemma {:induction false} SuggestionKinds(remote: Settings, kinds: seq<byte>)
    requires forall k | k in kinds :: k in remote
    ensures KindList(Suggestions(remote, kinds)) == kinds
  {
    if kinds != [] {
      var init := kinds[..|kinds| - 1];
      SuggestionKinds(remote, init);
      assert Suggestions(remote, kinds)[..|kinds| - 1] == Suggestions(remote, init);
    }
  }

  lemma {:induction false} UnknownIsWithout(remote: Settings, opts: seq<Opt>)
    ensures Unknown(remote, opts) == Without(opts, remote.Keys)
  {
    if opts != [] { UnknownIsWithout(remote, opts[..|opts| - 1]); }
  }

  lemma {:induction false} CorrectionKinds(remote: Settings, bad: set<byte>, opts: seq<Opt>, good: set<byte>)
    requires bad <= remote.Keys && forall k | k in Kinds(opts) :: k in good <==> k !in bad
    ensures KindList(Corrections(remote, bad, opts)) == KindList(Without(opts, good))
  {
    if opts != [] {
      var init, o := opts[..|opts| - 1], opts[|opts| - 1];
      assert opts == init + [o];
      assert Kinds(opts) == Kinds(init) + {o.kind};
      CorrectionKinds(remote, bad, init, good);
      if o.kind in bad {
        KindListConcat(Corrections(remote, bad, init), [Suggestion(remote, o.kind)]);
        KindListConcat(Without(init, good), [o]);
      } else {
        assert Without(opts, good) == Without(init, good);
        assert Corrections(remote, bad, opts) == Corrections(remote, bad, init);
      }
    }
  }

  /** The options of a request that are acceptable as they are. */
  function Agreed(remote: Settings, opts: seq<Opt>): set<byte>
  {
    set k | k in Kinds(opts) && k in remote && Accepts(remote[k], ValueOf(opts, k))
  }

  /** In what order replies list their options: a Reject repeats the unknown options as they came;
      a Nak takes the unacceptable ones in the order of the request, repeats included, and then the
      missing ones, each once. */
  lemma RepliesInOrder(remote: Settings, opts: seq<Opt>, r: Reply)
    requires Replies(remote, opts, r)
    ensures r.Reject? ==> r.opts == Without(opts, remote.Keys)
    ensures r.Nak? ==>
              var named := KindList(Without(opts, Agreed(remote, opts)));
              && |named| <= |r.opts| && KindList(r.opts)[..|named|] == named
              && Lists(KindList(r.opts)[|named|..], Kinds(r.opts) - Kinds(opts))
  {
    hide KindList, Without, Corrections, Suggestions, Missing, Lists;
    UnknownIsWithout(remote, opts);
    if r.Nak? {
      var order :| Lists(order, Missing(remote, opts)) && r == Answer(remote, opts, order);
      MissingKnown(remote, opts, order);
      UnknownNone(remote, opts);
      CorrectionKinds(remote, Bad(remote, opts), opts, Agreed(remote, opts));
      KindListConcat(Corrections(remote, Bad(remote, opts), opts), Suggestions(remote, order));
      SuggestionKinds(remote, order);
      MissingAre(remote, opts, r);
    }
  }

  lemma MissingKnown(remote: Settings, opts: seq<Opt>, order: seq<byte>)
    requires Lists(order, Missing(remote, opts))
    ensures forall k | k in order :: k in remote
  {
  }

  lemma MissingAre(remote: Settings, opts: seq<Opt>, r: Reply)
    requires Replies(remote, opts, r) && r.Nak?
    ensures Missing(remote, opts) == Kinds(r.opts) - Kinds(opts)
  {
    RepliesMean(remote, opts, r);
    forall k: byte ensures k in Kinds(opts) <==> ValueOf(opts, k).Some? { ValueOfKind(opts, k); }
    assert forall k | k in Missing(remote, opts) :: k in Kinds(r.opts) && k !in Kinds(opts);
  }

  lemma KindsAre(opts: seq<Opt>, s: set<byte>)
    requires forall k: byte :: k in Kinds(opts) <==> k in s
    ensures Kinds(opts) == s
  {
  }

  lemma Converges(remote: Settings, opts: seq<Opt>)
    requires CanAdvise(remote)
    ensures AckedWithin(remote, opts, 2)
  {
    forall r | Replies(remote, opts, r) ensures r.Ack? || AckedWithin(remote, Next(opts, r), 1) {
      if r.Nak? {
        NakThenAck(remote, opts, r);
      } else if r.Reject? {
        var known := Next(opts, r);
        UnknownKinds(remote, opts);
        WithoutKinds(opts, Kinds(r.opts));
        UnknownNone(remote, known);
        forall r1 | Replies(remote, known, r1) ensures r1.Ack? || AckedWithin(remote, Next(known, r1), 0) {
          if r1.Nak? { NakThenAck(remote, known, r1); }
        }
      }
    }
  }

  // ---------------------------------------------------------------- over runs

  /** None of the first k requests is acked. */
  predicate Unacked(xs: seq<Exchange>, k: nat)
  {
    forall i | 0 <= i < |xs| && i < k :: !xs[i].reply.Ack?
  }

  /** Each of the first k requests takes account of the reply to the one before. */
  predicate Cooperative(xs: seq<Exchange>, k: nat)
  {
    forall i | 0 < i < |xs| && i < k :: xs[i].opts == Next(xs[i - 1].opts, xs[i - 1].reply)
  }

  /** Whatever else is received or polled, the peer's settings change only with an Ack. */
  lemma StepUntilAck(n: Negotiator, e: Event)
    requires Possible(n, e)
    ensures n.remoteComplete ==> Step(n, e).remoteComplete
    ensures if Unacked(Handled(n, e), 1) then Step(n, e).remote == n.remote else Step(n, e).remoteComplete
    ensures forall i | 0 <= i < |Handled(n, e)| :: Replies(n.remote, Handled(n, e)[i].opts, Handled(n, e)[i].reply)
  {
    hide Answer, Updated, Carried, Acceptable;
    if Handled(n, e) != [] {
      assert Handled(n, e)[0] == Exchange(e.m.identifier, e.m.data.opts, Answer(n.remote, e.m.data.opts, e.order));
    }
  }

  /** Until the first Ack, all replies are given from the settings at the start. */
  lemma {:induction false} UntilAck(n: Negotiator, es: seq<Event>)
    requires PossibleRun(n, es)
    ensures var xs := Exchanges(n, es);
            && (if Unacked(xs, |xs|) then Run(n, es).remote == n.remote else Run(n, es).remoteComplete)
            && forall i | 0 <= i < |xs| && Unacked(xs, i) :: Replies(n.remote, xs[i].opts, xs[i].reply)
  {
    hide Step, Handled, Replies;
    if es != [] {
      var before, e := es[..|es| - 1], es[|es| - 1];
      UntilAck(n, before);
      StepUntilAck(Run(n, before), e);
      assert |Handled(Run(n, before), e)| <= 1 by { AtMostOne(Run(n, before), e); }
      UnackedConcat(Exchanges(n, before), Handled(Run(n, before), e));
    }
  }

  lemma UnackedConcat(xs: seq<Exchange>, ys: seq<Exchange>)
    requires |ys| <= 1
    ensures forall k | 0 <= k <= |xs| :: Unacked(xs + ys, k) <==> Unacked(xs, k)
    ensures Unacked(xs + ys, |xs + ys|) <==> Unacked(xs, |xs|) && Unacked(ys, 1)
  {
    assert forall i | 0 <= i < |ys| :: (xs + ys)[|xs| + i] == ys[i];
    assert forall i | 0 <= i < |xs| :: (xs + ys)[i] == xs[i];
  }

  lemma AtMostOne(n: Negotiator, e: Event)
    requires Possible(n, e)
    ensures |Handled(n, e)| <= 1
  {
  }

  /** A cooperative peer is acked by the third of its requests. */
  lemma {:induction false} ThirdIsAcked(n: Negotiator, es: seq<Event>)
    requires PossibleRun(n, es) && CanAdvise(n.remote)
    requires |Exchanges(n, es)| >= 3 && Cooperative(Exchanges(n, es), 3)
    ensures !Unacked(Exchanges(n, es), 3)
  {
    hide AckedWithin, Replies, Next, Exchanges;
    var xs := Exchanges(n, es);
    UntilAck(n, es);
    Converges(n.remote, xs[0].opts);
    if Unacked(xs, 3) {
      assert Unacked(xs, 0) && Unacked(xs, 1) && Unacked(xs, 2);
      OneMore(n.remote, xs[0].opts, xs[0].reply, 2);
      OneMore(n.remote, xs[1].opts, xs[1].reply, 1);
      OneMore(n.remote, xs[2].opts, xs[2].reply, 0);
    }
  }

  lemma OneMore(remote: Settings, opts: seq<Opt>, r: Reply, k: nat)
    requires AckedWithin(remote, opts, k) && Replies(remote, opts, r)
    ensures r.Ack? || (k > 0 && AckedWithin(remote, Next(opts, r), k - 1))
  {
  }

  /** The peer holds to one option that has no acceptable value, and asks for nothing unknown. */
  ghost predicate HoldsTo(remote: Settings, kind: byte, opts: seq<Opt>)
  {
    ValueOf(opts, kind).Some? && Unknown(remote, opts) == []
  }

  lemma OneOption(remote: Settings, kind: byte)
    requires kind in remote
    ensures HoldsTo(remote, kind, [Opt(kind, [])])
  {
    assert [Opt(kind, [])][..0] == [];
  }

  lemma NeverAcked(remote: Settings, kind: byte, opts: seq<Opt>, order: seq<byte>)
    requires kind in remote && remote[kind] == Setting(None, NonNegotiable) && HoldsTo(remote, kind, opts)
    requires Lists(order, Missing(remote, opts))
    ensures var r := Answer(remote, opts, order);
            r.Nak? && HoldsTo(remote, kind, Next(opts, r))
  {
    var r := Answer(remote, opts, order);
    assert kind in Bad(remote, opts);
    assert Replies(remote, opts, r);
    NextIsKnown(remote, opts, r);
    NextValue(opts, r.opts, kind);
  }

  function Request(opts: seq<Opt>, order: seq<byte>): Event
  {
    Recv(Message(CONFIGURE_REQUEST, 0, Configure(opts)), order, 0, true)
  }

  lemma RunSnoc(n: Negotiator, es: seq<Event>, e: Event)
    requires PossibleRun(n, es) && Possible(Run(n, es), e)
    ensures PossibleRun(n, es + [e]) && Run(n, es + [e]) == Step(Run(n, es), e)
    ensures Exchanges(n, es + [e]) == Exchanges(n, es) + Handled(Run(n, es), e)
  {
    hide Step, Possible, Handled;
    assert (es + [e])[..|es|] == es;
  }

  lemma HopelessStep(n: Negotiator, kind: byte, opts: seq<Opt>, order: seq<byte>)
    requires !n.failed && kind in n.remote && n.remote[kind] == Setting(None, NonNegotiable)
    requires HoldsTo(n.remote, kind, opts) && Lists(order, Missing(n.remote, opts))
    ensures var e, r := Request(opts, order), Answer(n.remote, opts, order);
            && Possible(n, e) && !Step(n, e).failed && Step(n, e).remote == n.remote
            && Handled(n, e) == [Exchange(0, opts, r)] && !r.Ack? && HoldsTo(n.remote, kind, Next(opts, r))
  {
    hide HoldsTo, Next;
    NeverAcked(n.remote, kind, opts, order);
  }

  /** A run of k requests from a cooperative peer that gets nowhere. */
  ghost predicate Fruitless(n: Negotiator, es: seq<Event>, k: nat)
  {
    && PossibleRun(n, es) && !Run(n, es).failed
    && |Exchanges(n, es)| == k && Cooperative(Exchanges(n, es), k) && Unacked(Exchanges(n, es), k)
  }

  ghost predicate Hopeless(n: Negotiator, k: nat)
  {
    exists es :: Fruitless(n, es, k)
  }

  lemma {:induction false} FruitlessRun(n: Negotiator, kind: byte, k: nat) returns (es: seq<Event>, opts: seq<Opt>)
    requires !n.failed && kind in n.remote && n.remote[kind] == Setting(None, NonNegotiable)
    ensures Fruitless(n, es, k) && Run(n, es).remote == n.remote && HoldsTo(n.remote, kind, opts)
    ensures var xs := Exchanges(n, es); k > 0 ==> opts == Next(xs[k - 1].opts, xs[k - 1].reply)
  {
    hide Step, Handled, Possible, Request, Next, Missing, Lists, HoldsTo;
    if k == 0 {
      es, opts := [], [Opt(kind, [])];
      OneOption(n.remote, kind);
    } else {
      var before, asked := FruitlessRun(n, kind, k - 1);
      var order := CanList(Missing(n.remote, asked));
      HopelessStep(Run(n, before), kind, asked, order);
      RunSnoc(n, before, Request(asked, order));
      es, opts := before + [Request(asked, order)], Next(asked, Answer(n.remote, asked, order));
      FruitlessSnoc(Exchanges(n, before), Exchange(0, asked, Answer(n.remote, asked, order)));
    }
  }

  lemma FruitlessSnoc(xs: seq<Exchange>, x: Exchange)
    requires Cooperative(xs, |xs|) && Unacked(xs, |xs|) && !x.reply.Ack?
    requires xs != [] ==> x.opts == Next(xs[|xs| - 1].opts, xs[|xs| - 1].reply)
    ensures Cooperative(xs + [x], |xs| + 1) && Unacked(xs + [x], |xs| + 1)
  {
    hide Next;
  }

  /** Of three cooperative requests to the negotiator one is acked, whatever else happens. */
  ghost predicate AcksThird(n: Negotiator, es: seq<Event>)
    requires PossibleRun(n, es)
  {
    |Exchanges(n, es)| >= 3 && Cooperative(Exchanges(n, es), 3) ==> !Unacked(Exchanges(n, es), 3)
  }

  /** Convergence: of the first three requests that a cooperative peer makes of a negotiator, one
      is acked, whatever it first asks for, however the maps are walked and whatever else happens
      in between, exactly when there is a value to suggest for every non-negotiable option.
      Without one, a cooperative peer can be kept waiting through any number of requests. */
  lemma {:induction false} NegotiationConverges(n: Negotiator)
    requires !n.failed
    ensures CanAdvise(n.remote) <==> forall es | PossibleRun(n, es) :: AcksThird(n, es)
    ensures !CanAdvise(n.remote) <==> forall k: nat :: Hopeless(n, k)
  {
    hide PossibleRun, Cooperative, Unacked, Exchanges, Run;
    if CanAdvise(n.remote) {
      forall es | PossibleRun(n, es) ensures AcksThird(n, es) {
        if |Exchanges(n, es)| >= 3 && Cooperative(Exchanges(n, es), 3) { ThirdIsAcked(n, es); }
      }
      assert !Hopeless(n, 3);
    } else {
      var kind :| kind in n.remote && n.remote[kind].validate == NonNegotiable && n.remote[kind].value.None?;
      forall k: nat ensures Hopeless(n, k) {
        var es, _ := FruitlessRun(n, kind, k);
      }
      var es, _ := FruitlessRun(n, kind, 3);
      assert !AcksThird(n, es);
    }
  }

  /** What makes negotiation converge is never lost, nor gained. */
  lemma {:induction false} AdviceStays(n: Negotiator, es: seq<Event>)
    requires PossibleRun(n, es)
    ensures CanAdvise(Run(n, es).remote) <==> CanAdvise(n.remote)
  {
    FixedOptionsStay(n, es);
  }

  lemma {:induction false} AcksRepeat(n: Negotiator, es: seq<Event>)
    requires PossibleRun(n, es)
    ensures forall i | 0 <= i < |Exchanges(n, es)| ::
              Exchanges(n, es)[i].reply.Ack? ==> Exchanges(n, es)[i].reply.opts == Exchanges(n, es)[i].opts
  {
    if es != [] { AcksRepeat(n, es[..|es| - 1]); }
  }

  lemma {:induction false} ReplyWasSent(sent: seq<Sent>, x: Sent)
    requires x in ReplyLog(sent)
    ensures x in sent
  {
    if x != sent[|sent| - 1] { ReplyWasSent(sent[..|sent| - 1], x); }
  }

  /** From any point of a session, three requests of a cooperative peer complete its side of the
      negotiation unless an error comes in between: one of the three is acked by name. */
  lemma {:induction false} SessionsConverge(start: Negotiator, magic: seq<byte>, addr: seq<byte>,
                                            before: seq<Event>, es: seq<Event>)
    requires start == LcpStart(magic) || start == Ipxcp(addr)
    requires PossibleRun(start, before) && PossibleRun(Run(start, before), es)
    requires var n := Run(start, before);
             !Run(n, es).failed && Requests(es) >= 3 && Cooperative(Exchanges(n, es), 3)
    ensures var n := Run(start, before);
            && Run(n, es).remoteComplete
            && exists i | 0 <= i < 3 && i < |Exchanges(n, es)| ::
                 SentReply(Exchanges(n, es)[i].id, Ack(Exchanges(n, es)[i].opts)) in Run(n, es).sent
  {
    hide PossibleRun, Cooperative, Exchanges, Run, ReplyLog, Requests, LcpStart, Ipxcp;
    var n := Run(start, before);
    assert CanAdvise(n.remote) by { StartsAdvise(magic, addr); AdviceStays(start, before); }
    SendsMatch(n, es);
    ThirdIsAcked(n, es);
    UntilAck(n, es);
    AcksRepeat(n, es);
    var xs := Exchanges(n, es);
    var i :| 0 <= i < 3 && xs[i].reply.Ack?;
    assert SentReply(xs[i].id, xs[i].reply) in Run(n, es).sent by {
      var x := Logged(xs)[i];
      assert x in ReplyLog(n.sent) + Logged(xs);
      ReplyWasSent(Run(n, es).sent, x);
    }
    assert SentReply(xs[i].id, Ack(xs[i].opts)) in Run(n, es).sent;
  }

  lemma StartsAdvise(magic: seq<byte>, addr: seq<byte>)
    ensures CanAdvise(LcpStart(magic).remote) && CanAdvise(Ipxcp(addr).remote)
  {
  }

  // ---------------------------------------------------------------- what the two negotiations accept

  /** At any point of an LCP negotiation, the peer is acked if and only if it names a magic number,
      option 5, whatever it is, and nothing else; a request without one is answered with a
      suggestion, which is four zeros until the first Ack. */
  lemma {:induction false} LcpAnswers(magic: seq<byte>, es: seq<Event>, opts: seq<Opt>, r: Reply)
    requires PossibleRun(LcpStart(magic), es) && Replies(Run(LcpStart(magic), es).remote, opts, r)
    ensures r.Ack? <==> Kinds(opts) == {5}
    ensures r.Nak? <==> opts == []
    ensures r.Nak? ==> Kinds(r.opts) == {MAGIC_NUMBER}
    ensures r.Nak? && !Run(LcpStart(magic), es).remoteComplete ==> ValueOf(r.opts, MAGIC_NUMBER) == Some([0, 0, 0, 0])
  {
    var remote := Run(LcpStart(magic), es).remote;
    FixedOptionsStay(LcpStart(magic), es);
    RemoteIsLastAcked(LcpStart(magic), es);
    RepliesMean(remote, opts, r);
    ValueOfKind(opts, MAGIC_NUMBER);
    NoKinds(opts);
    assert remote.Keys == {MAGIC_NUMBER};
    if r.Nak? {
      assert MAGIC_NUMBER in Kinds(r.opts);
      AdviceValue(remote, opts, r, MAGIC_NUMBER);
    }
  }

  lemma NoKinds(opts: seq<Opt>)
    ensures Kinds(opts) == {} <==> opts == []
  {
    if opts != [] { assert opts[0].kind in Kinds(opts); }
  }

  /** At any point of an IPXCP negotiation, the peer is acked if and only if it names the assigned
      node number and nothing else; any other request for a node number is answered with it. */
  lemma {:induction false} IpxcpAnswers(addr: seq<byte>, es: seq<Event>, opts: seq<Opt>, r: Reply)
    requires PossibleRun(Ipxcp(addr), es) && Replies(Run(Ipxcp(addr), es).remote, opts, r)
    ensures r.Ack? <==> Kinds(opts) == {2} && ValueOf(opts, 2) == Some(addr)
    ensures r.Nak? ==> ValueOf(r.opts, IPX_NODE) == Some(addr) && Kinds(r.opts) == {IPX_NODE}
  {
    var remote := Run(Ipxcp(addr), es).remote;
    FixedOptionsStay(Ipxcp(addr), es);
    RepliesMean(remote, opts, r);
    ValueOfKind(opts, IPX_NODE);
    assert remote.Keys == {IPX_NODE} && remote[IPX_NODE] == Setting(Some(addr), NonNegotiable);
    if r.Nak? {
      AdviceValue(remote, opts, r, IPX_NODE);
      assert IPX_NODE in Kinds(r.opts) by { ValueOfKind(r.opts, IPX_NODE); }
    }
  }

  /** In IPXCP we give way on every value that the peer asks for, and on leaving an option out, but
      an option that we did not name ends the negotiation. */
  lemma {:induction false} IpxcpGivesWay(addr: seq<byte>, es: seq<Event>, m: Message, now: int)
    requires PossibleRun(Ipxcp(addr), es) && !Run(Ipxcp(addr), es).failed
    requires WellTyped(m) && (m.kind == 3 || m.kind == 4)
    ensures var n' := Step(Run(Ipxcp(addr), es), Recv(m, [], now, true));
            !n'.failed <==> Kinds(m.data.opts) <= {1, 2}
  {
    hide Step, Run, ValueOf, Kinds;
    FixedOptionsStay(Ipxcp(addr), es);
    NakIsAllOrNothing(Run(Ipxcp(addr), es), m, [], now, true);
  }

  /** In LCP we give way on nothing: a Nak of anything but our own magic number, or a Reject of it,
      ends the negotiation. */
  lemma {:induction false} LcpGivesNoWay(magic: seq<byte>, es: seq<Event>, m: Message, now: int)
    requires PossibleRun(LcpStart(magic), es) && !Run(LcpStart(magic), es).failed
    requires WellTyped(m) && (m.kind == 3 || m.kind == 4)
    ensures var n' := Step(Run(LcpStart(magic), es), Recv(m, [], now, true));
            !n'.failed <==>
              || m.data.opts == []
              || (m.kind == 3 && Kinds(m.data.opts) == {5} && ValueOf(m.data.opts, 5) == Some(magic))
  {
    hide Step, Run, ValueOf, Kinds;
    FixedOptionsStay(LcpStart(magic), es);
    NakIsAllOrNothing(Run(LcpStart(magic), es), m, [], now, true);
    NoKinds(m.data.opts);
  }
}
