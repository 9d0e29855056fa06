/** The wire format of PPP's Link Control Protocol (section 6 of RFC 1661), shared by IPXCP. */
module Lcp {
  import opened Bytes

  // ---------------------------------------------------------------- option lists

  datatype Opt = Opt(kind: byte, data: seq<byte>)

  /** Panics stands for the out-of-range slice that an option length below 2 causes. */
  datatype Result<T> = Ok(value: T) | TooShort | Panics

  function PrintOptions(opts: seq<Opt>): seq<byte>
  {
    if opts == [] then []
    else [opts[0].kind, (|opts[0].data| + 2) % 0x100] + opts[0].data + PrintOptions(opts[1..])
  }

  function ParseOptions(data: seq<byte>): (r: Result<seq<Opt>>)
    decreases |data|
  {
    if data == [] then Ok([])
    else if |data| < 2 || data[1] > |data| then TooShort
    else if data[1] < 2 then Panics
    else Before([Opt(data[0], data[2..data[1]])], ParseOptions(data[data[1]..]))
  }

  /** Options already read, followed by the outcome of the rest. */
  function Before(opts: seq<Opt>, r: Result<seq<Opt>>): Result<seq<Opt>>
  {
    if r.Ok? then Ok(opts + r.value) else r
  }

  predicate Printable(opts: seq<Opt>) { forall i | 0 <= i < |opts| :: |opts[i].data| <= 253 }

  lemma FirstOption(data: seq<byte>, n: byte)
    requires |data| >= 2 && data[1] == n && 2 <= n <= |data|
    ensures [data[0], (|data[2..n]| + 2) % 0x100] + data[2..n] + data[n..] == data
  {
  }

  /** Parsing then printing gives back the bytes, and the options read are printable. */
  lemma {:induction false} ParseThenPrint(data: seq<byte>)
    requires ParseOptions(data).Ok?
    ensures PrintOptions(ParseOptions(data).value) == data && Printable(ParseOptions(data).value)
    decreases |data|
  {
    if data != [] {
      var n := data[1];
      ParseThenPrint(data[n..]);
      var opts := ParseOptions(data).value;
      assert opts[1..] == ParseOptions(data[n..]).value;
      FirstOption(data, n);
    }
  }

  lemma PrintedFirst(o: Opt, rest: seq<byte>)
    requires |o.data| <= 253
    ensures var data: seq<byte> := [o.kind, (|o.data| + 2) % 0x100] + o.data + rest;
            ParseOptions(data) == Before([o], ParseOptions(rest))
  {
    var data: seq<byte> := [o.kind, (|o.data| + 2) % 0x100] + o.data + rest;
    assert data[2..|o.data| + 2] == o.data;
    assert data[|o.data| + 2..] == rest;
  }

  lemma {:induction false} PrintThenParse(opts: seq<Opt>)
    requires Printable(opts)
    ensures ParseOptions(PrintOptions(opts)) == Ok(opts)
  {
    if opts != [] {
      var o, data := opts[0], PrintOptions(opts);
      PrintThenParse(opts[1..]);
      PrintedFirst(o, PrintOptions(opts[1..]));
      assert opts == [o] + opts[1..];
    }
  }

  /** Mutual inverses: an option list survives the wire exactly when every option fits its
      length byte, and the parser accepts exactly what prints from such a list. */
  lemma {:induction false} OptionsRoundTrip(opts: seq<Opt>)
    ensures ParseOptions(PrintOptions(opts)) == Ok(opts) <==> Printable(opts)
  {
    if Printable(opts) { PrintThenParse(opts); }
    if ParseOptions(PrintOptions(opts)) == Ok(opts) { ParseThenPrint(PrintOptions(opts)); }
  }

  lemma {:induction false} ParserAccepts(data: seq<byte>)
    ensures ParseOptions(data).Ok? <==> exists opts :: Printable(opts) && PrintOptions(opts) == data
  {
    if ParseOptions(data).Ok? { ParseThenPrint(data); }
    forall opts | Printable(opts) && PrintOptions(opts) == data ensures ParseOptions(data).Ok? {
      PrintThenParse(opts);
    }
  }

  /** Well-formed options are read off whatever follows them. */
  lemma {:induction false} ParsePast(opts: seq<Opt>, rest: seq<byte>)
    requires Printable(opts)
    ensures ParseOptions(PrintOptions(opts) + rest) == Before(opts, ParseOptions(rest))
  {
    hide ParseOptions;
    if opts == [] {
      assert PrintOptions(opts) + rest == rest;
      BeforeJoins([], [], ParseOptions(rest));
    } else {
      var o, tail := opts[0], PrintOptions(opts[1..]) + rest;
      ParsePast(opts[1..], rest);
      assert PrintOptions(opts) + rest == [o.kind, (|o.data| + 2) % 0x100] + o.data + tail;
      PrintedFirst(o, tail);
      BeforeJoins([o], opts[1..], ParseOptions(rest));
      assert [o] + opts[1..] == opts;
    }
  }

  lemma BeforeJoins(a: seq<Opt>, b: seq<Opt>, r: Result<seq<Opt>>)
    ensures Before(a, Before(b, r)) == Before(a + b, r)
    ensures Before([], r) == r
  {
    if r.Ok? { assert a + (b + r.value) == a + b + r.value && [] + r.value == r.value; }
  }

  /** How parsing fails: past some well-formed options, an option is cut off, or it claims a length
      that does not even cover its own two bytes. The first such option decides. */
  ghost predicate CutOff(rest: seq<byte>) { |rest| == 1 || (|rest| >= 2 && rest[1] > |rest|) }

  ghost predicate Impossible(rest: seq<byte>) { |rest| >= 2 && rest[1] < 2 }

  lemma {:induction false} ParserFails(data: seq<byte>) returns (opts: seq<Opt>, rest: seq<byte>)
    ensures Printable(opts) && data == PrintOptions(opts) + rest
    ensures ParseOptions(data).Ok? <==> rest == []
    ensures ParseOptions(data) == TooShort <==> CutOff(rest)
    ensures ParseOptions(data) == Panics <==> Impossible(rest)
    decreases |data|
  {
    if data == [] || |data| < 2 || data[1] > |data| || data[1] < 2 {
      opts, rest := [], data;
    } else {
      var n := data[1];
      opts, rest := ParserFails(data[n..]);
      FirstOption(data, n);
      var o := Opt(data[0], data[2..n]);
      assert ([o] + opts)[1..] == opts;
      assert data == [o.kind, (|o.data| + 2) % 0x100] + o.data + (PrintOptions(opts) + rest);
      opts := [o] + opts;
    }
  }

  /** Both errors, if and only if: they depend on nothing but the first bad option. */
  lemma {:induction false} ParserErrors(data: seq<byte>)
    ensures ParseOptions(data) == TooShort <==>
            exists opts, rest :: Printable(opts) && CutOff(rest) && data == PrintOptions(opts) + rest
    ensures ParseOptions(data) == Panics <==>
            exists opts, rest :: Printable(opts) && Impossible(rest) && data == PrintOptions(opts) + rest
  {
    var opts, rest := ParserFails(data);
    forall opts, rest | Printable(opts) && data == PrintOptions(opts) + rest
      ensures CutOff(rest) ==> ParseOptions(data) == TooShort
      ensures Impossible(rest) ==> ParseOptions(data) == Panics
    {
      ParsePast(opts, rest);
    }
  }

  /** ConfigureData.UnmarshalBinary: consumes the data option by option. */
  method UnmarshalOptions(bytes: seq<byte>) returns (r: Result<seq<Opt>>)
    ensures r == ParseOptions(bytes)
  {
    var result: seq<Opt> := [];
    var data := bytes;
    assert Before([], ParseOptions(bytes)) == ParseOptions(bytes) by {
      if ParseOptions(bytes).Ok? { assert [] + ParseOptions(bytes).value == ParseOptions(bytes).value; }
    }
    while |data| > 0
      invariant ParseOptions(bytes) == Before(result, ParseOptions(data))
      decreases |data|
    {
      if |data| < 2 {
        return TooShort;
      }
      var optType, optLen := data[0], data[1];
      if optLen > |data| {
        return TooShort;
      }
      if optLen < 2 {
        return Panics;
      }
      ghost var rest := ParseOptions(data[optLen..]);
      if rest.Ok? {
        assert result + ([Opt(optType, data[2..optLen])] + rest.value)
            == result + [Opt(optType, data[2..optLen])] + rest.value;
      }
      result := result + [Opt(optType, data[2..optLen])];
      data := data[optLen..];
    }
    assert result + [] == result;
    return Ok(result);
  }

  lemma {:induction false} PrintSnoc(opts: seq<Opt>, o: Opt)
    ensures PrintOptions(opts + [o]) == PrintOptions(opts) + [o.kind, (|o.data| + 2) % 0x100] + o.data
  {
    if opts != [] {
      PrintSnoc(opts[1..], o);
      assert (opts + [o])[1..] == opts[1..] + [o];
    } else {
      assert ([] + [o])[1..] == [];
    }
  }

  /** ConfigureData.MarshalBinary: appends the options one by one. */
  method MarshalOptions(opts: seq<Opt>) returns (result: seq<byte>)
    ensures result == PrintOptions(opts)
  {
    result := [];
    for i := 0 to |opts|
      invariant result == PrintOptions(opts[..i])
    {
      PrintSnoc(opts[..i], opts[i]);
      assert opts[..i + 1] == opts[..i] + [opts[i]];
      result := result + [opts[i].kind, (|opts[i].data| + 2) % 0x100];
      result := result + opts[i].data;
    }
    assert opts[..|opts|] == opts;
  }

  // ---------------------------------------------------------------- messages

  const CONFIGURE_REQUEST: byte := 1
  const CONFIGURE_ACK: byte := 2
  const CONFIGURE_NAK: byte := 3
  const CONFIGURE_REJECT: byte := 4

  datatype Data =
    | Configure(opts: seq<Opt>)
    | Terminate(text: seq<byte>)
    | Echo(magicNumber: u32, extra: seq<byte>)
    | ProtocolReject(pppType: u16, rejected: seq<byte>)
    | NoData

  datatype Message = Message(kind: byte, identifier: byte, data: Data)

  /** The data that a message of each type carries: Configure-*, Terminate-*, Echo-* and
      Discard-Request, Protocol-Reject, and nothing for the types that are not decoded. */
  predicate WellTyped(m: Message)
  {
    if 1 <= m.kind <= 4 then m.data.Configure?
    else if 5 <= m.kind <= 6 then m.data.Terminate?
    else if 9 <= m.kind <= 11 then m.data.Echo?
    else if m.kind == 8 then m.data.ProtocolReject?
    else m.data.NoData?
  }

  function MarshalData(d: Data): seq<byte>
  {
    match d
    case Configure(opts) => PrintOptions(opts)
    case Terminate(text) => text
    case Echo(magic, extra) => PutBig32(magic) + extra
    case ProtocolReject(pppType, rejected) => PutBig16(pppType) + rejected
    case NoData => []
  }

  function UnmarshalData(kind: byte, b: seq<byte>): Result<Data>
  {
    if 1 <= kind <= 4 then
      match ParseOptions(b)
      case Ok(opts) => Ok(Configure(opts))
      case TooShort => TooShort
      case Panics => Panics
    else if 5 <= kind <= 6 then Ok(Terminate(b))
    else if 9 <= kind <= 11 then
      if |b| < 4 then TooShort else Ok(Echo(Big32(b[..4]), b[4..]))
    else if kind == 8 then
      if |b| < 2 then TooShort else Ok(ProtocolReject(Big16(b[..2]), b[2..]))
    else Ok(NoData)
  }

  function Marshal(m: Message): (b: seq<byte>)
    ensures |b| >= 4
  {
    var extra := MarshalData(m.data);
    [m.kind, m.identifier] + PutBig16((|extra| + 4) % 0x1_0000) + extra
  }

  function Unmarshal(b: seq<byte>): Result<Message>
  {
    if |b| < 4 || Big16(b[2..4]) > |b| then TooShort
    else match UnmarshalData(b[0], b[4..])
      case Ok(data) => Ok(Message(b[0], b[1], data))
      case TooShort => TooShort
      case Panics => Panics
  }

  predicate Sendable(m: Message) { WellTyped(m) && (m.data.Configure? ==> Printable(m.data.opts)) }

  lemma DataRoundTrip(m: Message)
    ensures UnmarshalData(m.kind, MarshalData(m.data)) == Ok(m.data) <==> Sendable(m)
  {
    var b := MarshalData(m.data);
    match m.data
    case Configure(opts) =>
      OptionsRoundTrip(opts);
    case Terminate(text) =>
    case Echo(magic, extra) =>
      assert b[..4] == PutBig32(magic) && b[4..] == extra;
      Big32RoundTrip(magic);
    case ProtocolReject(pppType, rejected) =>
      assert b[..2] == PutBig16(pppType) && b[2..] == rejected;
    case NoData =>
  }

  /** A message survives the wire exactly when its data is of its type's kind and its options
      fit; its total length does not matter, since the length field is only a lower bound. */
  lemma {:induction false} MessageRoundTrip(m: Message)
    ensures Unmarshal(Marshal(m)) == Ok(m) <==> Sendable(m)
  {
    var b, extra := Marshal(m), MarshalData(m.data);
    assert b[2..4] == PutBig16((|extra| + 4) % 0x1_0000);
    assert b[4..] == extra;
    DataRoundTrip(m);
  }

  /** Printing what was parsed restores every byte but the length field, which counts the
      whole packet again; only types that are not decoded lose their contents. */
  lemma {:induction false} MessageReprint(b: seq<byte>)
    requires Unmarshal(b).Ok? && Unmarshal(b).value.data != NoData
    ensures Sendable(Unmarshal(b).value)
    ensures Marshal(Unmarshal(b).value) == b[..2] + PutBig16(|b| % 0x1_0000) + b[4..]
  {
    hide MarshalData, ParseOptions;
    var m, extra := Unmarshal(b).value, b[4..];
    DataReprint(m.kind, extra);
    assert Marshal(m) == [b[0], b[1]] + PutBig16((|extra| + 4) % 0x1_0000) + extra;
  }

  lemma DataReprint(kind: byte, extra: seq<byte>)
    requires UnmarshalData(kind, extra).Ok? && UnmarshalData(kind, extra).value != NoData
    ensures MarshalData(UnmarshalData(kind, extra).value) == extra
    ensures Sendable(Message(kind, 0, UnmarshalData(kind, extra).value))
  {
    hide PrintOptions, ParseOptions;
    match UnmarshalData(kind, extra).value
    case Configure(opts) => ParseThenPrint(extra);
    case Terminate(text) =>
    case Echo(magic, rest) => PutBack32(extra[..4]);
    case ProtocolReject(pppType, rest) => assert PutBig16(Big16(extra[..2])) == extra[..2];
    case NoData =>
  }

  /** The bytes of a message, the high one of each number first: a type, an identifier, a length
      that the packet must have at least, and the data of its type. */
  lemma {:induction false} MessageBytes(b: seq<byte>)
    requires Unmarshal(b).Ok?
    ensures |b| >= 4 && (b[2] as int) * 256 + b[3] <= |b|
    ensures var m := Unmarshal(b).value;
            && m.kind == b[0] && m.identifier == b[1]
            && match m.data
               case Configure(opts) => 1 <= b[0] <= 4 && PrintOptions(opts) == b[4..]
               case Terminate(text) => 5 <= b[0] <= 6 && text == b[4..]
               case Echo(magic, extra) =>
                 && 9 <= b[0] <= 11 && |b| >= 8 && extra == b[8..]
                 && magic == (b[4] as int) * 0x100_0000 + (b[5] as int) * 0x1_0000 + (b[6] as int) * 0x100 + b[7]
               case ProtocolReject(pppType, rejected) =>
                 b[0] == 8 && |b| >= 6 && pppType == (b[4] as int) * 0x100 + b[5] && rejected == b[6..]
               case NoData => b[0] == 0 || b[0] == 7 || b[0] > 11
  {
    var extra := b[4..];
    assert forall i | 0 <= i < |extra| :: extra[i] == b[4 + i];
    match Unmarshal(b).value.data
    case Configure(opts) => ParseThenPrint(extra);
    case Terminate(text) =>
    case Echo(magic, rest) =>
      assert extra[..4][..2] == [b[4 + 0], b[4 + 1]] && extra[..4][2..] == [b[4 + 2], b[4 + 3]];
      assert extra[4..] == b[8..];
    case ProtocolReject(pppType, rest) =>
      assert extra[..2] == [b[4 + 0], b[4 + 1]] && extra[2..] == b[6..];
    case NoData =>
  }

  /** Which packets are refused, other than for their options: those shorter than their length
      field, or than the fixed part of their type. */
  lemma {:induction false} ShortMessages(b: seq<byte>)
    ensures |b| < 4 ==> Unmarshal(b) == TooShort
    ensures |b| >= 4 && !(1 <= b[0] <= 4) ==>
              (Unmarshal(b).Ok? <==>
                && (b[2] as int) * 256 + b[3] <= |b|
                && (9 <= b[0] <= 11 ==> |b| >= 8) && (b[0] == 8 ==> |b| >= 6))
    ensures |b| >= 4 && 1 <= b[0] <= 4 ==>
              (Unmarshal(b).Ok? <==> (b[2] as int) * 256 + b[3] <= |b| && ParseOptions(b[4..]).Ok?)
    ensures Unmarshal(b) == Panics <==>
            |b| >= 4 && 1 <= b[0] <= 4 && (b[2] as int) * 256 + b[3] <= |b| && ParseOptions(b[4..]) == Panics
  {
    if |b| >= 4 { assert b[2..4][0] == b[2] && b[2..4][1] == b[3]; }
  }

  /** Bytes past the length field are padding and should be ignored (section 5 of RFC 1661). Of a
      packet whose own bytes are valid, they are if and only if there are none. */
  lemma {:induction false} PaddingIsParsed(b: seq<byte>, n: nat)
    requires 4 <= n <= |b| && Big16(b[2..4]) == n
    requires Unmarshal(b[..n]).Ok? && Unmarshal(b[..n]).value.data != NoData
    ensures Unmarshal(b) == Unmarshal(b[..n]) <==> n == |b|
  {
    assert n == |b| ==> b[..n] == b;
    MessageReprint(b[..n]);
    if Unmarshal(b).Ok? && Unmarshal(b).value.data != NoData { MessageReprint(b); }
  }

  /** An empty Configure-Request with two bytes of padding is taken for one with an option. */
  lemma PaddingBecomesOption()
    ensures Unmarshal([CONFIGURE_REQUEST, 7, 0, 4]) == Ok(Message(CONFIGURE_REQUEST, 7, Configure([])))
    ensures Unmarshal([CONFIGURE_REQUEST, 7, 0, 4] + [5, 2]) == Ok(Message(CONFIGURE_REQUEST, 7, Configure([Opt(5, [])])))
  {
    var b, padded := [CONFIGURE_REQUEST, 7, 0, 4], [CONFIGURE_REQUEST, 7, 0, 4] + [5, 2];
    assert b[4..] == PrintOptions([]);
    OptionsRoundTrip([]);
    assert [Opt(5, [])][..0] == [];
    assert padded[2..4] == [0, 4] && b[2..4] == [0, 4];
    assert padded[4..] == [5, 2] == PrintOptions([Opt(5, [])]);
    OptionsRoundTrip([Opt(5, [])]);
  }

  lemma PutBack32(b: seq<byte>)
    requires |b| == 4
    ensures PutBig32(Big32(b)) == b
  {
    assert PutBig16(Big16(b[..2])) == b[..2] && PutBig16(Big16(b[2..])) == b[2..];
    assert Big32(b) / 0x1_0000 == Big16(b[..2]) && Big32(b) % 0x1_0000 == Big16(b[2..]);
  }
}
