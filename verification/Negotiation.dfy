/** PPP option negotiation (sections 5.1 to 5.4 of RFC 1661), as used for LCP and for IPXCP. */
module Negotiation {
  import opened Bytes
  import opened Lcp

  const MAX_CONFIGURE_REQUESTS := 5
  const REQUEST_TIMEOUT := SECOND

  // ---------------------------------------------------------------- settings

  /** None is an option left out; an option may also be present and empty. */
  type Value = Bytes.Option<seq<byte>>

  datatype Validator = Anything | NonNegotiable | Required

  datatype Setting = Setting(value: Value, validate: Validator)

  type Settings = map<byte, Setting>

  predicate Accepts(s: Setting, v: Value)
  {
    match s.validate
    case Anything => true
    case NonNegotiable => s.value == v
    case Required => s.value == v || v.Some?
  }

  /** What a list of options says about one kind: the last one counts. */
  function ValueOf(opts: seq<Opt>, kind: byte): Value
  {
    if opts == [] then None
    else if opts[|opts| - 1].kind == kind then Some(opts[|opts| - 1].data)
    else ValueOf(opts[..|opts| - 1], kind)
  }

  function Kinds(opts: seq<Opt>): set<byte> { set o | o in opts :: o.kind }

  function Updated(s: Settings, values: map<byte, Value>): Settings
  {
    map k | k in s :: if k in values then s[k].(value := values[k]) else s[k]
  }

  // ---------------------------------------------------------------- answering a request

  datatype Reply = Ack(opts: seq<Opt>) | Nak(opts: seq<Opt>) | Reject(opts: seq<Opt>)

  function Unknown(remote: Settings, opts: seq<Opt>): seq<Opt>
  {
    if opts == [] then []
    else Unknown(remote, opts[..|opts| - 1]) + if opts[|opts| - 1].kind in remote then [] else [opts[|opts| - 1]]
  }

  function Bad(remote: Settings, opts: seq<Opt>): set<byte>
  {
    set k | k in remote && !Accepts(remote[k], ValueOf(opts, k))
  }

  function Missing(remote: Settings, opts: seq<Opt>): set<byte>
  {
    set k | k in Bad(remote, opts) && ValueOf(opts, k).None?
  }

  function Suggestion(remote: Settings, kind: byte): Opt
    requires kind in remote
  {
    Opt(kind, if remote[kind].value.Some? then remote[kind].value.value else [])
  }

  /** A suggestion for each bad option of a request, in order. */
  function Corrections(remote: Settings, bad: set<byte>, opts: seq<Opt>): seq<Opt>
    requires bad <= remote.Keys
  {
    if opts == [] then []
    else
      Corrections(remote, bad, opts[..|opts| - 1])
      + if opts[|opts| - 1].kind in bad then [Suggestion(remote, opts[|opts| - 1].kind)] else []
  }

  function Suggestions(remote: Settings, kinds: seq<byte>): seq<Opt>
    requires forall k | k in kinds :: k in remote
  {
    seq(|kinds|, i requires 0 <= i < |kinds| => Suggestion(remote, kinds[i]))
  }

  /** Lists a set once over, in the order a map happens to be walked. */
  predicate Lists(order: seq<byte>, s: set<byte>)
  {
    && (forall i | 0 <= i < |order| :: order[i] in s)
    && (forall k | k in s :: k in order)
    && (forall i, j | 0 <= i < j < |order| :: order[i] != order[j])
  }

  /** The reply to a request; a Nak lists missing options in the order given. */
  function Answer(remote: Settings, opts: seq<Opt>, order: seq<byte>): Reply
    requires Lists(order, Missing(remote, opts))
  {
    if Unknown(remote, opts) != [] then Reject(Unknown(remote, opts))
    else if Bad(remote, opts) != {}
    then Nak(Corrections(remote, Bad(remote, opts), opts) + Suggestions(remote, order))
    else Ack(opts)
  }

  function Wanted(remote: Settings, opts: seq<Opt>): map<byte, Value>
  {
    map k | k in remote :: ValueOf(opts, k)
  }

  // ---------------------------------------------------------------- lists of options

  lemma {:induction false} ValueOfKind(opts: seq<Opt>, kind: byte)
    ensures ValueOf(opts, kind).Some? <==> kind in Kinds(opts)
  {
    if opts != [] {
      var init, o := opts[..|opts| - 1], opts[|opts| - 1];
      ValueOfKind(init, kind);
      assert opts == init + [o];
      assert Kinds(opts) == Kinds(init) + {o.kind};
    }
  }

  lemma ValueOfSnoc(opts: seq<Opt>, o: Opt)
    ensures forall k :: ValueOf(opts + [o], k) == if o.kind == k then Some(o.data) else ValueOf(opts, k)
    ensures Kinds(opts + [o]) == Kinds(opts) + {o.kind}
  {
    assert (opts + [o])[..|opts|] == opts;
  }

  lemma {:induction false} ValueOfConcat(a: seq<Opt>, b: seq<Opt>, kind: byte)
    ensures ValueOf(a + b, kind) == if ValueOf(b, kind).Some? then ValueOf(b, kind) else ValueOf(a, kind)
  {
    if b == [] {
      assert a + b == a;
    } else {
      ValueOfConcat(a, b[..|b| - 1], kind);
      assert (a + b)[..|a + b| - 1] == a + b[..|b| - 1];
    }
  }

  lemma {:induction false} CorrectionsValue(remote: Settings, bad: set<byte>, opts: seq<Opt>, kind: byte)
    requires bad <= remote.Keys
    ensures ValueOf(Corrections(remote, bad, opts), kind)
         == if kind in bad && ValueOf(opts, kind).Some? then Some(Suggestion(remote, kind).data) else None
  {
    if opts != [] {
      var init, o := opts[..|opts| - 1], opts[|opts| - 1];
      CorrectionsValue(remote, bad, init, kind);
      if o.kind in bad {
        ValueOfSnoc(Corrections(remote, bad, init), Suggestion(remote, o.kind));
      } else {
        assert Corrections(remote, bad, opts) == Corrections(remote, bad, init);
      }
    }
  }

  lemma {:induction false} SuggestionsValue(remote: Settings, kinds: seq<byte>, kind: byte)
    requires forall k | k in kinds :: k in remote
    ensures ValueOf(Suggestions(remote, kinds), kind)
         == if kind in kinds then Some(Suggestion(remote, kind).data) else None
  {
    if kinds != [] {
      var init, k := kinds[..|kinds| - 1], kinds[|kinds| - 1];
      SuggestionsValue(remote, init, kind);
      assert Suggestions(remote, kinds) == Suggestions(remote, init) + [Suggestion(remote, k)];
      assert kinds == init + [k];
      ValueOfSnoc(Suggestions(remote, init), Suggestion(remote, k));
    }
  }

  lemma {:induction false} CanList(s: set<byte>) returns (order: seq<byte>)
    ensures Lists(order, s)
  {
    if s == {} {
      order := [];
    } else {
      var k :| k in s;
      var rest := CanList(s - {k});
      order := rest + [k];
    }
  }

  // ---------------------------------------------------------------- the negotiator

  /** Configure-Requests are recorded by their contents, since their options are listed in the
      order a map happens to be walked. */
  datatype Sent = SentRequest(id: byte, values: map<byte, seq<byte>>) | SentReply(id: byte, reply: Reply)

  datatype Negotiator = Negotiator(
    local: Settings, remote: Settings,
    localComplete: bool, remoteComplete: bool,
    requestSequence: byte, requestSendTime: Bytes.Option<int>,
    failed: bool,            // err is set
    sent: seq<Sent>)

  function Start(local: Settings, remote: Settings): Negotiator
  {
    Negotiator(local, remote, false, false, 1, None, false, [])
  }

  function HandleRequest(n: Negotiator, id: byte, opts: seq<Opt>, order: seq<byte>, sendOk: bool): Negotiator
    requires Lists(order, Missing(n.remote, opts))
  {
    var r := Answer(n.remote, opts, order);
    n.(remote := if r.Ack? then Updated(n.remote, Wanted(n.remote, opts)) else n.remote,
       remoteComplete := n.remoteComplete || r.Ack?,
       failed := n.failed || !sendOk,
       sent := n.sent + [SentReply(id, r)])
  }

  function Carried(local: Settings): map<byte, seq<byte>>
  {
    map k | k in local && local[k].value.Some? :: local[k].value.value
  }

  /** What a list of options says, whatever its order. */
  function Contents(opts: seq<Opt>): map<byte, seq<byte>>
  {
    map k | k in Kinds(opts) && ValueOf(opts, k).Some? :: ValueOf(opts, k).value
  }

  lemma ContentsAre(opts: seq<Opt>, m: map<byte, seq<byte>>)
    requires forall k: byte :: ValueOf(opts, k) == if k in m then Some(m[k]) else None
    ensures Contents(opts) == m
  {
    forall k: byte ensures k in Contents(opts) <==> k in m { ValueOfKind(opts, k); }
    assert Contents(opts).Keys == m.Keys;
  }

  function SendRequest(n: Negotiator, now: int, sendOk: bool): Negotiator
  {
    n.(sent := n.sent + [SentRequest(n.requestSequence, Carried(n.local))],
       requestSequence := (n.requestSequence + 1) % 0x100,
       requestSendTime := Some(now),
       failed := n.failed || !sendOk)
  }

  predicate Acceptable(local: Settings, values: map<byte, Value>)
  {
    forall k | k in values :: k in local && Accepts(local[k], values[k])
  }

  function ApplyNewValues(n: Negotiator, values: map<byte, Value>, now: int, sendOk: bool): Negotiator
  {
    if !Acceptable(n.local, values) then n.(failed := true)
    else SendRequest(n.(local := Updated(n.local, values)), now, sendOk)
  }

  /** The values a Configure-Nak asks for, and those a Configure-Reject leaves. */
  function NakValues(opts: seq<Opt>): map<byte, Value> { map k | k in Kinds(opts) :: ValueOf(opts, k) }

  function RejectValues(opts: seq<Opt>): map<byte, Value> { map k | k in Kinds(opts) :: None }

  datatype Event =
    | Recv(m: Message, order: seq<byte>, now: int, sendOk: bool)
    | Tick(now: int, sendOk: bool)

  /** Packets come from the decoder, and a Nak lists each missing option once. */
  predicate Possible(n: Negotiator, e: Event)
  {
    e.Recv? ==>
      && WellTyped(e.m)
      && (e.m.kind == CONFIGURE_REQUEST ==> Lists(e.order, Missing(n.remote, e.m.data.opts)))
  }

  function Step(n: Negotiator, e: Event): Negotiator
    requires Possible(n, e)
  {
    if n.failed then n
    else match e
      case Recv(m, order, now, sendOk) =>
        if m.kind == CONFIGURE_REQUEST then HandleRequest(n, m.identifier, m.data.opts, order, sendOk)
        else if m.kind == CONFIGURE_ACK then n.(localComplete := true)
        else if m.kind == CONFIGURE_NAK then ApplyNewValues(n, NakValues(m.data.opts), now, sendOk)
        else if m.kind == CONFIGURE_REJECT then ApplyNewValues(n, RejectValues(m.data.opts), now, sendOk)
        else n
      case Tick(now, sendOk) =>
        if n.localComplete then n
        else if n.requestSendTime.Some? && now < n.requestSendTime.value + REQUEST_TIMEOUT then n
        else if n.requestSequence >= MAX_CONFIGURE_REQUESTS + 1 then n.(failed := true)
        else SendRequest(n, now, sendOk)
  }

  predicate PossibleRun(n: Negotiator, es: seq<Event>)
    decreases |es|, 0
  {
    es == [] || (PossibleRun(n, es[..|es| - 1]) && Possible(Run(n, es[..|es| - 1]), es[|es| - 1]))
  }

  function Run(n: Negotiator, es: seq<Event>): Negotiator
    requires PossibleRun(n, es)
    decreases |es|, 1
  {
    if es == [] then n else Step(Run(n, es[..|es| - 1]), es[|es| - 1])
  }

  // ---------------------------------------------------------------- safety of the values

  /** The same options with the same validators; the fixed ones have the same values, and the
      required ones have lost none. */
  ghost predicate KeepsFixed(s: Settings, s': Settings)
  {
    && s'.Keys == s.Keys
    && forall k | k in s ::
         && s'[k].validate == s[k].validate
         && (s[k].validate == NonNegotiable ==> s'[k] == s[k])
         && (s[k].validate == Required && s[k].value.Some? ==> s'[k].value.Some?)
  }

  lemma KeepsFixedSelf(s: Settings)
    ensures KeepsFixed(s, s)
  {
  }

  lemma UpdateKeepsFixed(s: Settings, values: map<byte, Value>)
    requires forall k | k in values && k in s :: Accepts(s[k], values[k])
    ensures KeepsFixed(s, Updated(s, values))
  {
  }

  lemma RequestKeepsFixed(n: Negotiator, id: byte, opts: seq<Opt>, order: seq<byte>, sendOk: bool)
    requires Lists(order, Missing(n.remote, opts))
    ensures KeepsFixed(n.remote, HandleRequest(n, id, opts, order, sendOk).remote)
    ensures HandleRequest(n, id, opts, order, sendOk).local == n.local
  {
    if Bad(n.remote, opts) == {} {
      assert forall k | k in n.remote :: k !in Bad(n.remote, opts);
      UpdateKeepsFixed(n.remote, Wanted(n.remote, opts));
    }
  }

  lemma ApplyKeepsFixed(n: Negotiator, values: map<byte, Value>, now: int, sendOk: bool)
    ensures KeepsFixed(n.local, ApplyNewValues(n, values, now, sendOk).local)
    ensures ApplyNewValues(n, values, now, sendOk).remote == n.remote
  {
    if Acceptable(n.local, values) { UpdateKeepsFixed(n.local, values); }
  }

  lemma StepKeepsFixed(n: Negotiator, e: Event)
    requires Possible(n, e)
    ensures KeepsFixed(n.local, Step(n, e).local) && KeepsFixed(n.remote, Step(n, e).remote)
  {
    hide HandleRequest, ApplyNewValues, NakValues, RejectValues, KeepsFixed;
    KeepsFixedSelf(n.local);
    KeepsFixedSelf(n.remote);
    match e
    case Recv(m, order, now, sendOk) =>
      if m.kind == CONFIGURE_REQUEST { RequestKeepsFixed(n, m.identifier, m.data.opts, order, sendOk); }
      if m.kind == CONFIGURE_NAK { ApplyKeepsFixed(n, NakValues(m.data.opts), now, sendOk); }
      if m.kind == CONFIGURE_REJECT { ApplyKeepsFixed(n, RejectValues(m.data.opts), now, sendOk); }
    case Tick(_, _) =>
  }

  /** A non-negotiable option never changes, and a required one never loses its value, on either
      side, in any run. */
  lemma {:induction false} FixedOptionsStay(n: Negotiator, es: seq<Event>)
    requires PossibleRun(n, es)
    ensures KeepsFixed(n.local, Run(n, es).local) && KeepsFixed(n.remote, Run(n, es).remote)
  {
    if es != [] {
      FixedOptionsStay(n, es[..|es| - 1]);
      StepKeepsFixed(Run(n, es[..|es| - 1]), es[|es| - 1]);
    }
  }

  /** A Nak or Reject from the peer, type 3 or 4, applies all of its values or none: none exactly when one of
      them is unknown or not accepted, and then negotiation has failed. */
  lemma NakIsAllOrNothing(n: Negotiator, m: Message, order: seq<byte>, now: int, sendOk: bool)
    requires WellTyped(m) && (m.kind == 3 || m.kind == 4) && !n.failed
    ensures var n' := Step(n, Recv(m, order, now, sendOk));
            var asked := k => if m.kind == 3 then ValueOf(m.data.opts, k) else None;
            if exists k | k in Kinds(m.data.opts) :: k !in n.local || !Accepts(n.local[k], asked(k))
            then n'.local == n.local && n'.failed && n'.sent == n.sent
            else
              && n'.local.Keys == n.local.Keys && n'.failed == !sendOk
              && (forall k | k in Kinds(m.data.opts) :: n'.local[k].value == asked(k))
              && (forall k | k in n.local && k !in Kinds(m.data.opts) :: n'.local[k] == n.local[k])
  {
    hide ValueOf, Kinds;
  }

  /** An error freezes the negotiator, whatever is received or however long it is left. */
  lemma {:induction false} ErrorsFreeze(n: Negotiator, es: seq<Event>)
    requires PossibleRun(n, es) && n.failed
    ensures Run(n, es) == n
  {
    if es != [] { ErrorsFreeze(n, es[..|es| - 1]); }
  }

  /** The options of the last request that was acked. */
  function LastAck(sent: seq<Sent>): Bytes.Option<seq<Opt>>
  {
    if sent == [] then None
    else if sent[|sent| - 1].SentReply? && sent[|sent| - 1].reply.Ack? then Some(sent[|sent| - 1].reply.opts)
    else LastAck(sent[..|sent| - 1])
  }

  lemma LastAckSnoc(sent: seq<Sent>, x: Sent)
    ensures LastAck(sent + [x]) == if x.SentReply? && x.reply.Ack? then Some(x.reply.opts) else LastAck(sent)
  {
    assert (sent + [x])[..|sent|] == sent;
  }

  lemma {:induction false} UnknownNone(remote: Settings, opts: seq<Opt>)
    ensures Unknown(remote, opts) == [] <==> Kinds(opts) <= remote.Keys
  {
    if opts != [] {
      var init, o := opts[..|opts| - 1], opts[|opts| - 1];
      UnknownNone(remote, init);
      assert opts == init + [o];
      assert Kinds(opts) == Kinds(init) + {o.kind};
    }
  }

  /** The peer's values are those of its last acked request, or the initial ones. */
  ghost predicate RemoteOk(n0: Negotiator, n: Negotiator)
  {
    && (n.remoteComplete <==> LastAck(n.sent).Some?)
    && n.remote.Keys == n0.remote.Keys
    && match LastAck(n.sent)
       case None => n.remote == n0.remote
       case Some(opts) =>
         Kinds(opts) <= n.remote.Keys && forall k | k in n.remote :: n.remote[k].value == ValueOf(opts, k)
  }

  lemma RequestKeepsRemote(n0: Negotiator, n: Negotiator, id: byte, opts: seq<Opt>, order: seq<byte>, sendOk: bool)
    requires RemoteOk(n0, n) && Lists(order, Missing(n.remote, opts))
    ensures RemoteOk(n0, HandleRequest(n, id, opts, order, sendOk))
  {
    LastAckSnoc(n.sent, SentReply(id, Answer(n.remote, opts, order)));
    UnknownNone(n.remote, opts);
  }

  lemma SendKeepsRemote(n0: Negotiator, n: Negotiator, now: int, sendOk: bool)
    requires RemoteOk(n0, n)
    ensures RemoteOk(n0, SendRequest(n, now, sendOk))
  {
    LastAckSnoc(n.sent, SentRequest(n.requestSequence, Carried(n.local)));
  }

  lemma StepKeepsRemote(n0: Negotiator, n: Negotiator, e: Event)
    requires RemoteOk(n0, n) && Possible(n, e)
    ensures RemoteOk(n0, Step(n, e))
  {
    hide Answer, LastAck;
    match e
    case Recv(m, order, now, sendOk) =>
      if m.kind == CONFIGURE_REQUEST { RequestKeepsRemote(n0, n, m.identifier, m.data.opts, order, sendOk); }
      if m.kind == CONFIGURE_NAK {
        SendKeepsRemote(n0, n.(local := Updated(n.local, NakValues(m.data.opts))), now, sendOk);
      }
      if m.kind == CONFIGURE_REJECT {
        SendKeepsRemote(n0, n.(local := Updated(n.local, RejectValues(m.data.opts))), now, sendOk);
      }
    case Tick(now, sendOk) => SendKeepsRemote(n0, n, now, sendOk);
  }

  /** Once the peer's side is complete, its values are exactly those of the last request that
      was acked; until then they are the initial ones. */
  lemma {:induction false} RemoteIsLastAcked(n: Negotiator, es: seq<Event>)
    requires PossibleRun(n, es) && n.sent == [] && !n.remoteComplete
    ensures RemoteOk(n, Run(n, es))
  {
    if es != [] {
      RemoteIsLastAcked(n, es[..|es| - 1]);
      StepKeepsRemote(n, Run(n, es[..|es| - 1]), es[|es| - 1]);
    }
  }

  // ---------------------------------------------------------------- what is sent

  /** A request that was handled, and the reply to it. */
  datatype Exchange = Exchange(id: byte, opts: seq<Opt>, reply: Reply)

  /** The requests handled in a run: those received before any error. */
  function Exchanges(n: Negotiator, es: seq<Event>): seq<Exchange>
    requires PossibleRun(n, es)
  {
    if es == [] then [] else Exchanges(n, es[..|es| - 1]) + Handled(Run(n, es[..|es| - 1]), es[|es| - 1])
  }

  function Handled(n: Negotiator, e: Event): seq<Exchange>
    requires Possible(n, e)
  {
    if !n.failed && IsRequest(e)
    then [Exchange(e.m.identifier, e.m.data.opts, Answer(n.remote, e.m.data.opts, e.order))]
    else []
  }

  /** Configure-Request is type 1. */
  predicate IsRequest(e: Event) { e.Recv? && e.m.kind == 1 }

  function Requests(es: seq<Event>): nat
  {
    if es == [] then 0 else Requests(es[..|es| - 1]) + if IsRequest(es[|es| - 1]) then 1 else 0
  }

  /** The replies among what was sent, and those that a list of exchanges asks for. */
  function ReplyLog(sent: seq<Sent>): seq<Sent>
  {
    if sent == [] then []
    else ReplyLog(sent[..|sent| - 1]) + if sent[|sent| - 1].SentReply? then [sent[|sent| - 1]] else []
  }

  function Logged(xs: seq<Exchange>): (log: seq<Sent>)
    ensures |log| == |xs|
  {
    seq(|xs|, i requires 0 <= i < |xs| => SentReply(xs[i].id, xs[i].reply))
  }

  /** The contents of our last request. */
  function LastRequest(sent: seq<Sent>): Bytes.Option<map<byte, seq<byte>>>
  {
    if sent == [] then None
    else if sent[|sent| - 1].SentRequest? then Some(sent[|sent| - 1].values)
    else LastRequest(sent[..|sent| - 1])
  }

  lemma SentSnoc(sent: seq<Sent>, x: Sent)
    ensures ReplyLog(sent + [x]) == ReplyLog(sent) + if x.SentReply? then [x] else []
    ensures LastRequest(sent + [x]) == if x.SentRequest? then Some(x.values) else LastRequest(sent)
  {
    assert (sent + [x])[..|sent|] == sent;
  }

  /** Our last request, if there was one, says what we would say now. */
  ghost predicate Current(n: Negotiator)
  {
    LastRequest(n.sent).Some? ==> LastRequest(n.sent).value == Carried(n.local)
  }

  lemma RequestSends(n: Negotiator, id: byte, opts: seq<Opt>, order: seq<byte>, sendOk: bool)
    requires Lists(order, Missing(n.remote, opts))
    ensures ReplyLog(HandleRequest(n, id, opts, order, sendOk).sent)
         == ReplyLog(n.sent) + [SentReply(id, Answer(n.remote, opts, order))]
    ensures Current(n) ==> Current(HandleRequest(n, id, opts, order, sendOk))
  {
    hide Answer, Carried;
    SentSnoc(n.sent, SentReply(id, Answer(n.remote, opts, order)));
  }

  lemma SendRequestSends(n: Negotiator, now: int, sendOk: bool)
    ensures ReplyLog(SendRequest(n, now, sendOk).sent) == ReplyLog(n.sent)
    ensures Current(SendRequest(n, now, sendOk))
  {
    hide Carried;
    SentSnoc(n.sent, SentRequest(n.requestSequence, Carried(n.local)));
  }

  lemma StepSends(n: Negotiator, e: Event)
    requires Possible(n, e)
    ensures ReplyLog(Step(n, e).sent) == ReplyLog(n.sent) + Logged(Handled(n, e))
    ensures n.failed ==> Step(n, e).failed
    ensures Current(n) ==> Current(Step(n, e))
  {
    hide Answer, Acceptable, Carried, Updated, ReplyLog, LastRequest, HandleRequest;
    match e
    case Recv(m, order, now, sendOk) =>
      if m.kind == CONFIGURE_REQUEST { RequestSends(n, m.identifier, m.data.opts, order, sendOk); }
      if m.kind == CONFIGURE_NAK {
        SendRequestSends(n.(local := Updated(n.local, NakValues(m.data.opts))), now, sendOk);
      }
      if m.kind == CONFIGURE_REJECT {
        SendRequestSends(n.(local := Updated(n.local, RejectValues(m.data.opts))), now, sendOk);
      }
    case Tick(now, sendOk) => SendRequestSends(n, now, sendOk);
  }

  /** Every request gets one reply with its own identifier, in order, until an error, and what
      the peer was last asked for is what we hold, in any run. */
  lemma {:induction false} SendsMatch(n: Negotiator, es: seq<Event>)
    requires PossibleRun(n, es)
    ensures ReplyLog(Run(n, es).sent) == ReplyLog(n.sent) + Logged(Exchanges(n, es))
    ensures !Run(n, es).failed ==> |Exchanges(n, es)| == Requests(es)
    ensures Current(n) ==> Current(Run(n, es))
  {
    hide Current, ReplyLog, Step;
    if es != [] {
      var before, e := Run(n, es[..|es| - 1]), es[|es| - 1];
      SendsMatch(n, es[..|es| - 1]);
      StepSends(before, e);
      LoggedConcat(Exchanges(n, es[..|es| - 1]), Handled(before, e));
    }
  }

  lemma LoggedConcat(xs: seq<Exchange>, ys: seq<Exchange>)
    ensures Logged(xs + ys) == Logged(xs) + Logged(ys)
  {
  }

  /** The requests among what was sent. */
  function RequestLog(sent: seq<Sent>): seq<byte>
  {
    if sent == [] then []
    else RequestLog(sent[..|sent| - 1]) + if sent[|sent| - 1].SentRequest? then [sent[|sent| - 1].id] else []
  }

  lemma RequestLogSnoc(sent: seq<Sent>, x: Sent)
    ensures RequestLog(sent + [x]) == RequestLog(sent) + if x.SentRequest? then [x.id] else []
  {
    assert (sent + [x])[..|sent|] == sent;
  }

  ghost predicate RequestsNumbered(n: Negotiator)
  {
    && n.requestSequence == (|RequestLog(n.sent)| + 1) % 256
    && forall i | 0 <= i < |RequestLog(n.sent)| :: RequestLog(n.sent)[i] == (i + 1) % 256
  }

  lemma SendRequestNumbers(n: Negotiator, now: int, sendOk: bool)
    requires RequestsNumbered(n)
    ensures RequestsNumbered(SendRequest(n, now, sendOk))
  {
    hide Carried, RequestLog;
    RequestLogSnoc(n.sent, SentRequest(n.requestSequence, Carried(n.local)));
  }

  lemma StepNumbers(n: Negotiator, e: Event)
    requires Possible(n, e) && RequestsNumbered(n)
    ensures RequestsNumbered(Step(n, e))
  {
    hide Answer, Acceptable, Carried, Updated, RequestLog, SendRequest;
    match e
    case Recv(m, order, now, sendOk) =>
      if m.kind == CONFIGURE_REQUEST {
        RequestLogSnoc(n.sent, SentReply(m.identifier, Answer(n.remote, m.data.opts, order)));
      }
      if m.kind == CONFIGURE_NAK {
        SendRequestNumbers(n.(local := Updated(n.local, NakValues(m.data.opts))), now, sendOk);
      }
      if m.kind == CONFIGURE_REJECT {
        SendRequestNumbers(n.(local := Updated(n.local, RejectValues(m.data.opts))), now, sendOk);
      }
    case Tick(now, sendOk) => SendRequestNumbers(n, now, sendOk);
  }

  /** Our requests are numbered 1, 2, 3, ... in every run, and the number wraps after 255. */
  lemma {:induction false} RequestsAreNumbered(local: Settings, remote: Settings, es: seq<Event>)
    requires PossibleRun(Start(local, remote), es)
    ensures var ids := RequestLog(Run(Start(local, remote), es).sent);
            forall i | 0 <= i < |ids| :: ids[i] == (i + 1) % 256
    ensures RequestsNumbered(Run(Start(local, remote), es))
  {
    hide Step;
    if es != [] {
      RequestsAreNumbered(local, remote, es[..|es| - 1]);
      StepNumbers(Run(Start(local, remote), es[..|es| - 1]), es[|es| - 1]);
    }
  }

  /** Where errors come from: a send that was made and failed, a Nak or Reject that asks for an
      unknown or unacceptable value, or a poll that is due after the fifth request. */
  lemma {:induction false} ErrorsMean(n: Negotiator, e: Event)
    requires Possible(n, e) && !n.failed
    ensures Step(n, e).failed <==>
            || (|Step(n, e).sent| > |n.sent| && !e.sendOk)
            || (e.Recv? && e.m.kind == CONFIGURE_NAK && !Acceptable(n.local, NakValues(e.m.data.opts)))
            || (e.Recv? && e.m.kind == CONFIGURE_REJECT && !Acceptable(n.local, RejectValues(e.m.data.opts)))
            || (e.Tick? && !n.localComplete && n.requestSequence >= 6
                && (n.requestSendTime.Some? ==> n.requestSendTime.value + SECOND <= e.now))
    ensures n.sent <= Step(n, e).sent && |Step(n, e).sent| <= |n.sent| + 1
  {
    hide Answer, Acceptable, Carried, Updated, NakValues, RejectValues, Kinds;
  }

  // ---------------------------------------------------------------- IPXCP and LCP

  const IPX_NETWORK: byte := 1
  const IPX_NODE: byte := 2

  /** The settings of an IPXCP negotiation that assigns the given address. */
  function Ipxcp(addr: seq<byte>): Negotiator
  {
    Start(map[IPX_NETWORK := Setting(Some([0, 0, 0, 0]), Anything),
              IPX_NODE := Setting(Some([0, 0, 0, 0, 0, 0]), Anything)],
          map[IPX_NODE := Setting(Some(addr), NonNegotiable)])
  }

  /** IPXCP completes only with the assigned node number (section 3.2 of RFC 1552): the last
      request acked names that number and no other option. */
  lemma {:induction false} IpxcpAssignsAddress(addr: seq<byte>, es: seq<Event>)
    requires PossibleRun(Ipxcp(addr), es) && Run(Ipxcp(addr), es).remoteComplete
    ensures var acked := LastAck(Run(Ipxcp(addr), es).sent);
            acked.Some? && Kinds(acked.value) == {IPX_NODE} && ValueOf(acked.value, IPX_NODE) == Some(addr)
  {
    RemoteIsLastAcked(Ipxcp(addr), es);
    FixedOptionsStay(Ipxcp(addr), es);
    var opts := LastAck(Run(Ipxcp(addr), es).sent).value;
    ValueOfKind(opts, IPX_NODE);
  }

  const MAGIC_NUMBER: byte := 5

  /** The settings of an LCP negotiation: our magic number is fixed, the peer must have one. */
  function LcpStart(magic: seq<byte>): Negotiator
  {
    Start(map[MAGIC_NUMBER := Setting(Some(magic), NonNegotiable)],
          map[MAGIC_NUMBER := Setting(Some([0, 0, 0, 0]), Required)])
  }

  /** LCP completes only after the peer has named a magic number of its own. */
  lemma {:induction false} LcpNeedsMagicNumber(magic: seq<byte>, es: seq<Event>)
    requires PossibleRun(LcpStart(magic), es) && Run(LcpStart(magic), es).remoteComplete
    ensures var acked := LastAck(Run(LcpStart(magic), es).sent);
            acked.Some? && Kinds(acked.value) == {MAGIC_NUMBER}
  {
    RemoteIsLastAcked(LcpStart(magic), es);
    FixedOptionsStay(LcpStart(magic), es);
    ValueOfKind(LastAck(Run(LcpStart(magic), es).sent).value, MAGIC_NUMBER);
  }

  /** What each negotiation opens with: LCP with our magic number, and IPXCP with network and node
      number zero, for the peer to correct. */
  lemma FirstRequests(magic: seq<byte>, addr: seq<byte>, now: int)
    ensures Step(LcpStart(magic), Tick(now, true)).sent == [SentRequest(1, map[5 := magic])]
    ensures Step(Ipxcp(addr), Tick(now, true)).sent
         == [SentRequest(1, map[1 := [0, 0, 0, 0], 2 := [0, 0, 0, 0, 0, 0]])]
  {
    assert Carried(LcpStart(magic).local) == map[MAGIC_NUMBER := magic];
    assert Carried(Ipxcp(addr).local) == map[IPX_NETWORK := [0, 0, 0, 0], IPX_NODE := [0, 0, 0, 0, 0, 0]];
  }
}
