/** The negotiator as it runs: its handlers walk option lists and maps and update the settings
    in place. A parameter says whether the send callback succeeds. */
module NegotiationHandlers {
  import opened Bytes
  import opened Lcp
  import opened N = Negotiation

  /** Sets each of the given values in turn; all of them are for known options. */
  method SetValues(s: Settings, values: map<byte, Value>) returns (s': Settings)
    requires values.Keys <= s.Keys
    ensures s' == Updated(s, values)
  {
    s' := s;
    var todo: set<byte> := values.Keys;
    while todo != {}
      invariant todo <= values.Keys && s'.Keys == s.Keys
      invariant forall k | k in s :: s'[k] == if k in values && k !in todo then s[k].(value := values[k]) else s[k]
    {
      EmptyOrNot(todo);
      var k: byte :| k in todo;
      todo := todo - {k};
      s' := s'[k := s'[k].(value := values[k])];
    }
  }

  class Negotiator {
    var localOptions: Settings
    var remoteOptions: Settings
    var localComplete: bool
    var remoteComplete: bool
    var requestSequence: byte
    var requestSendTime: Bytes.Option<int>
    var failed: bool

    ghost var sent: seq<Sent>

    ghost function Model(): N.Negotiator
      reads this
    {
      N.Negotiator(localOptions, remoteOptions, localComplete, remoteComplete,
                   requestSequence, requestSendTime, failed, sent)
    }

    constructor (local: Settings, remote: Settings)
      ensures Model() == Start(local, remote)
    {
      localOptions, remoteOptions := local, remote;
      localComplete, remoteComplete, failed := false, false, false;
      requestSequence, requestSendTime, sent := 1, None, [];
    }

    method SendPacket(ghost x: Sent, sendOk: bool)
      modifies this`sent, this`failed
      ensures sent == old(sent) + [x] && failed == (old(failed) || !sendOk)
    {
      sent := sent + [x];
      if !sendOk {
        failed := true;
      }
    }

    /** The options of a request that are not in remoteOptions. */
    method FindUnknown(opts: seq<Opt>) returns (unknown: seq<Opt>)
      ensures unknown == Unknown(remoteOptions, opts)
    {
      unknown := [];
      for i := 0 to |opts|
        invariant unknown == Unknown(remoteOptions, opts[..i])
      {
        assert opts[..i + 1][..i] == opts[..i];
        if opts[i].kind !in remoteOptions {
          unknown := unknown + [opts[i]];
        }
      }
      assert opts[..|opts|] == opts;
    }

    /** A value for every remote option, None where the request has none. */
    method NewValues(opts: seq<Opt>) returns (values: map<byte, Value>)
      requires Kinds(opts) <= remoteOptions.Keys
      ensures values == Wanted(remoteOptions, opts)
    {
      values := map k | k in remoteOptions :: None;
      for i := 0 to |opts|
        invariant values == Wanted(remoteOptions, opts[..i])
      {
        assert opts[i].kind in Kinds(opts);
        assert opts[..i + 1] == opts[..i] + [opts[i]];
        ValueOfSnoc(opts[..i], opts[i]);
        values := values[opts[i].kind := Some(opts[i].data)];
      }
      assert opts[..|opts|] == opts;
    }

    method FindBad(opts: seq<Opt>, values: map<byte, Value>) returns (bad: set<byte>)
      requires values == Wanted(remoteOptions, opts)
      ensures bad == Bad(remoteOptions, opts)
    {
      bad := {};
      var todo: set<byte> := values.Keys;
      while todo != {}
        invariant todo <= values.Keys && bad == Bad(remoteOptions, opts) - todo
      {
        EmptyOrNot(todo);
        var k: byte :| k in todo;
        todo := todo - {k};
        if !Accepts(remoteOptions[k], values[k]) {
          bad := bad + {k};
        }
      }
    }

    /** The advice of a Nak: bad options in the order of the request, then missing ones. */
    method Advice(opts: seq<Opt>, values: map<byte, Value>, bad: set<byte>) returns (reply: seq<Opt>, ghost order: seq<byte>)
      requires values == Wanted(remoteOptions, opts) && bad == Bad(remoteOptions, opts)
      ensures Lists(order, Missing(remoteOptions, opts))
      ensures reply == Corrections(remoteOptions, bad, opts) + Suggestions(remoteOptions, order)
      ensures forall k: byte :: ValueOf(reply, k) == if k in bad then Some(Suggestion(remoteOptions, k).data) else None
    {
      reply := [];
      for i := 0 to |opts|
        invariant reply == Corrections(remoteOptions, bad, opts[..i])
      {
        assert opts[..i + 1][..i] == opts[..i];
        if opts[i].kind in bad {
          reply := reply + [Suggestion(remoteOptions, opts[i].kind)];
        }
      }
      assert opts[..|opts|] == opts;
      order := [];
      var todo: set<byte> := bad;
      while todo != {}
        invariant todo <= bad && Lists(order, Missing(remoteOptions, opts) - todo)
        invariant reply == Corrections(remoteOptions, bad, opts) + Suggestions(remoteOptions, order)
      {
        EmptyOrNot(todo);
        var k: byte :| k in todo;
        todo := todo - {k};
        if values[k].None? {
          assert Suggestions(remoteOptions, order + [k])
              == Suggestions(remoteOptions, order) + [Suggestion(remoteOptions, k)];
          reply := reply + [Suggestion(remoteOptions, k)];
          order := order + [k];
        }
      }
      forall k: byte ensures ValueOf(reply, k) == if k in bad then Some(Suggestion(remoteOptions, k).data) else None {
        CorrectionsValue(remoteOptions, bad, opts, k);
        SuggestionsValue(remoteOptions, order, k);
        ValueOfConcat(Corrections(remoteOptions, bad, opts), Suggestions(remoteOptions, order), k);
        assert k in order <==> k in Missing(remoteOptions, opts);
      }
    }

    method HandleConfigureRequest(id: byte, opts: seq<Opt>, sendOk: bool) returns (ghost order: seq<byte>)
      requires !failed
      modifies this
      ensures Lists(order, Missing(old(remoteOptions), opts))
      ensures Model() == HandleRequest(old(Model()), id, opts, order, sendOk)
    {
      var unknown := FindUnknown(opts);
      if |unknown| > 0 {
        order := CanList(Missing(remoteOptions, opts));
        SendPacket(SentReply(id, Reject(unknown)), sendOk);
        return;
      }
      UnknownNone(remoteOptions, opts);
      var values := NewValues(opts);
      var bad := FindBad(opts, values);
      if |bad| > 0 {
        var reply;
        reply, order := Advice(opts, values, bad);
        SendPacket(SentReply(id, Nak(reply)), sendOk);
        return;
      }
      order := [];
      remoteOptions := SetValues(remoteOptions, values);
      remoteComplete := true;
      SendPacket(SentReply(id, Ack(opts)), sendOk);
    }

    /** The options of a request of ours, in whatever order the map is walked. */
    method RequestOptions() returns (opts: seq<Opt>)
      ensures forall k: byte :: ValueOf(opts, k)
                == if k in Carried(localOptions) then Some(Carried(localOptions)[k]) else None
      ensures forall i, j | 0 <= i < j < |opts| :: opts[i].kind != opts[j].kind
    {
      opts := [];
      var todo: set<byte> := localOptions.Keys;
      while todo != {}
        invariant todo <= localOptions.Keys
        invariant forall k: byte :: ValueOf(opts, k)
                    == if k in Carried(localOptions) && k !in todo then Some(Carried(localOptions)[k]) else None
        invariant forall i | 0 <= i < |opts| :: opts[i].kind !in todo
        invariant forall i, j | 0 <= i < j < |opts| :: opts[i].kind != opts[j].kind
      {
        EmptyOrNot(todo);
        var k: byte :| k in todo;
        todo := todo - {k};
        if localOptions[k].value.Some? {
          ValueOfSnoc(opts, Opt(k, localOptions[k].value.value));
          opts := opts + [Opt(k, localOptions[k].value.value)];
        }
      }
    }

    method SendConfigureRequest(now: int, sendOk: bool)
      modifies this
      ensures Model() == SendRequest(old(Model()), now, sendOk)
    {
      var opts := RequestOptions();
      ContentsAre(opts, Carried(localOptions));
      SendPacket(SentRequest(requestSequence, Contents(opts)), sendOk);
      requestSequence := (requestSequence + 1) % 0x100;
      requestSendTime := Some(now);
    }

    /** Validates every value before any is set. */
    method ApplyValues(values: map<byte, Value>, now: int, sendOk: bool)
      requires !failed
      modifies this
      ensures Model() == ApplyNewValues(old(Model()), values, now, sendOk)
    {
      var refused := false;
      var todo: set<byte> := values.Keys;
      while todo != {}
        invariant todo <= values.Keys && Model() == old(Model())
        invariant refused <==> exists k: byte | k in values && k !in todo ::
                                 k !in localOptions || !Accepts(localOptions[k], values[k])
      {
        EmptyOrNot(todo);
        var k: byte :| k in todo;
        todo := todo - {k};
        if k !in localOptions || !Accepts(localOptions[k], values[k]) {
          refused := true;
        }
      }
      assert refused <==> !Acceptable(localOptions, values);
      if refused {
        failed := true;
        return;
      }
      localOptions := SetValues(localOptions, values);
      SendConfigureRequest(now, sendOk);
    }

    method RecvPacket(m: Message, now: int, sendOk: bool) returns (ghost order: seq<byte>)
      requires WellTyped(m)
      modifies this
      ensures Possible(old(Model()), Recv(m, order, now, sendOk))
      ensures Model() == Step(old(Model()), Recv(m, order, now, sendOk))
    {
      order := [];
      if m.kind == CONFIGURE_REQUEST { order := CanList(Missing(remoteOptions, m.data.opts)); }
      if failed {
        return;
      }
      if m.kind == CONFIGURE_REQUEST {
        order := HandleConfigureRequest(m.identifier, m.data.opts, sendOk);
      } else if m.kind == CONFIGURE_ACK {
        localComplete := true;
      } else if m.kind == CONFIGURE_NAK {
        ApplyValues(NakValues(m.data.opts), now, sendOk);
      } else if m.kind == CONFIGURE_REJECT {
        ApplyValues(RejectValues(m.data.opts), now, sendOk);
      }
    }

    /** One turn of StartNegotiation's loop. */
    method Poll(now: int, sendOk: bool) returns (done: bool)
      modifies this
      ensures done <==> old(localComplete || failed)
      ensures Model() == Step(old(Model()), Tick(now, sendOk))
    {
      done := localComplete || failed;
      if !done {
        MaybeSendRequest(now, sendOk);
      }
    }

    method MaybeSendRequest(now: int, sendOk: bool)
      requires !localComplete && !failed
      modifies this
      ensures Model() == Step(old(Model()), Tick(now, sendOk))
    {
      if requestSendTime.Some? && now < requestSendTime.value + REQUEST_TIMEOUT {
        return;
      }
      if requestSequence >= MAX_CONFIGURE_REQUESTS + 1 {
        failed := true;
        return;
      }
      SendConfigureRequest(now, sendOk);
    }
  }
}
