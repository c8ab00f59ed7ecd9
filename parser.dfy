/** The message envelope: a frame is the begin token, the message id, the
    separator token, the serialized message and the end token. A `Parser`
    holds the tokens and one callback slot per valid id. */
module MessageParser {
  import opened Values
  import opened Codec
  import opened CodecProofs
  import opened Streams
  import opened Reflection

  /** `parser_tokens`: one `char` each. */
  datatype Tokens = Tokens(begin: byte, separator: byte, end: byte)

  /** `{`, `:` and `}`. */
  const DefaultTokens := Tokens(123, 58, 125)

  /** A message type: its `id` and the serialization shape of its fields. */
  datatype MessageType = MessageType(id: int, schema: Schema)

  /** A registered callback: the message type its argument has and `user`,
      which names the user function it forwards the message to. */
  datatype Handler = Handler(msgType: MessageType, user: nat)

  /** What a successful `deserialize` does: call user function `user` with
      the decoded message `msg`. */
  datatype Delivery = Delivered(user: nat, msg: Value)

  /** The exceptions `deserialize` raises: `read_buffer_overflow`, or a
      `parser_error` naming what was wrong. */
  datatype Failure =
    | ReadPastEnd
    | BadBegin(got: byte)
    | BadId(id: int)
    | NoCallback(id: int)
    | BadSeparator(got: byte)
    | BadEnd(got: byte)

  /** Number of callback slots: `id_max_value + 1`. */
  const Slots: nat := IdMax + 1

  /** A one-byte token as the codec sees it: a trivial value of one byte. */
  const Token: Schema := Trivial(1)

  function TokenValue(b: byte): Value
  {
    Blob([b])
  }

  /** The bytes `serialize` writes for message `v` of type `m`. */
  function Frame(tokens: Tokens, m: MessageType, v: Value): (r: seq<byte>)
    requires IsValidId(m.id) && Conforms(m.schema, v)
    ensures |r| == 4 + Size(m.schema, v)
  {
    [tokens.begin, ByteOfId(m.id), tokens.separator] + Encode(m.schema, v) + [tokens.end]
  }

  /** What `deserialize` does with the unconsumed bytes `bs`, on a throwing
      stream, given the callback table: its outcome and the number of bytes
      it consumed before returning or throwing. */
  function Deframe(tokens: Tokens, callbacks: seq<Option<Handler>>, bs: seq<byte>): (r: (Result<Delivery, Failure>, nat))
    requires |callbacks| == Slots
    ensures r.1 <= |bs|
  {
    if |bs| < 1 then (Err(ReadPastEnd), 0)
    else if bs[0] != tokens.begin then (Err(BadBegin(bs[0])), 1)
    else if |bs| < 2 then (Err(ReadPastEnd), 1)
    else
      var id := IdOfByte(bs[1]);
      if !IsValidId(id) then (Err(BadId(id)), 2)
      else if callbacks[id].None? then (Err(NoCallback(id)), 2)
      else if |bs| < 3 then (Err(ReadPastEnd), 2)
      else if bs[2] != tokens.separator then (Err(BadSeparator(bs[2])), 3)
      else
        var h := callbacks[id].value;
        match Decode(h.msgType.schema, bs[3..])
        case None => (Err(ReadPastEnd), 3)
        case Some((v, n)) =>
          if |bs| < 4 + n then (Err(ReadPastEnd), 3 + n)
          else if bs[3 + n] != tokens.end then (Err(BadEnd(bs[3 + n])), 4 + n)
          else (Ok(Delivered(h.user, v)), 4 + n)
  }

  /** A well-formed callback table: the handler in slot `id` takes
      messages of that id. */
  predicate WellFormed(callbacks: seq<Option<Handler>>)
  {
    && |callbacks| == Slots
    && forall id | 0 <= id < |callbacks| && callbacks[id].Some? :: callbacks[id].value.msgType.id == id
  }

  class Parser {
    const tokens: Tokens
    var callbacks: seq<Option<Handler>>

    /** `parser(tokens)`: every slot empty. */
    constructor (tokens: Tokens)
      ensures this.tokens == tokens
      ensures |callbacks| == Slots && forall id | 0 <= id < Slots :: callbacks[id].None?
      ensures WellFormed(callbacks)
    {
      this.tokens := tokens;
      callbacks := seq(Slots, _ => None);
    }

    /** `set_callback(f)`: the slot of the handler's message id now holds
        it, replacing whatever was there; `id_of` requires a valid id. */
    method SetCallback(h: Handler)
      requires IsValidId(h.msgType.id) && |callbacks| == Slots
      modifies this
      ensures callbacks == old(callbacks)[h.msgType.id := Some(h)]
      ensures old(WellFormed(callbacks)) ==> WellFormed(callbacks)
    {
      callbacks := callbacks[h.msgType.id := Some(h)];
    }

    /** `serialize(stream, msg)`: streams the begin token, the id, the
        separator, the message and the end token, each under the stream's
        policy; a throwing stream stops at the first overflow. Whatever
        the outcome, what was written is a prefix of the frame and `begin`
        sits right after it. */
    method Serialize(stream: Stream, m: MessageType, v: Value) returns (r: Outcome<Overflow>)
      requires stream.Valid() && IsValidId(m.id) && Conforms(m.schema, v) && Fits(m.schema, v)
      requires stream.policy == Raw ==> |Frame(tokens, m, v)| <= stream.Remaining()
      modifies stream, stream.buf
      ensures stream.end == old(stream.end)
      ensures stream.policy != Throwing ==> r == Pass
      ensures r.Pass? ==> StreamedUpTo(stream, old(stream.begin), old(stream.buf[..]), Frame(tokens, m, v),
                                       old(stream.error), |Frame(tokens, m, v)|)
      ensures r.Fail? ==> Thrown(stream, old(stream.begin), old(stream.buf[..]), Frame(tokens, m, v),
                                 old(stream.error), r)
    {
      ghost var frame := Frame(tokens, m, v);
      ghost var start := stream.begin;
      ghost var before := stream.buf[..];
      ghost var failed := stream.error;
      var size := Size(m.schema, v);
      assert frame[..3] == [tokens.begin, ByteOfId(m.id), tokens.separator];
      assert frame[3..3 + size] == Encode(m.schema, v);
      assert frame[3 + size..4 + size] == [tokens.end];
      r := PutHeader(stream, tokens, ByteOfId(m.id), start, before, frame, failed);
      r := Put(stream, m.schema, v, start, before, frame, failed, 3, r);
      r := Put(stream, Token, TokenValue(tokens.end), start, before, frame, failed, 3 + size, r);
    }

    /** `deserialize(stream)` on a throwing stream: the begin token, the
        id, a lookup of the callback (before the separator is read), the
        separator, then the callback, which decodes the message and the end
        token with `throw_deserialize` and calls the user function. The
        outcome and the bytes consumed are those of `Deframe`. */
    method Deserialize(stream: Stream) returns (r: Result<Delivery, Failure>)
      requires stream.Valid() && stream.policy == Throwing && |callbacks| == Slots
      modifies stream
      ensures stream.Valid() && stream.end == old(stream.end) && stream.error == old(stream.error)
      ensures old(stream.begin) <= stream.begin
      ensures (r, stream.begin - old(stream.begin)) == Deframe(tokens, callbacks, old(stream.Unconsumed()))
    {
      ghost var bs := stream.Unconsumed();
      ghost var start := stream.begin;
      var t := stream.ThrowDeserialize(Token);
      if t.Err? {
        return Err(ReadPastEnd);
      }
      var token := t.value.bytes[0];
      if token != tokens.begin {
        return Err(BadBegin(token));
      }
      assert stream.Unconsumed() == bs[1..];
      t := stream.ThrowDeserialize(Token);
      if t.Err? {
        return Err(ReadPastEnd);
      }
      var id := IdOfByte(t.value.bytes[0]);
      if !IsValidId(id) {
        return Err(BadId(id));
      }
      var f := callbacks[id];
      if f.None? {
        return Err(NoCallback(id));
      }
      assert stream.Unconsumed() == bs[2..];
      t := stream.ThrowDeserialize(Token);
      if t.Err? {
        return Err(ReadPastEnd);
      }
      token := t.value.bytes[0];
      if token != tokens.separator {
        return Err(BadSeparator(token));
      }
      assert stream.Unconsumed() == bs[3..];
      r := Invoke(stream, f.value, bs, start);
    }

    /** The callback `set_callback` installs: decodes the message and the
        end token with `throw_deserialize`, then calls the user function. */
    method Invoke(stream: Stream, h: Handler, ghost bs: seq<byte>, ghost start: nat) returns (r: Result<Delivery, Failure>)
      requires stream.Valid() && stream.policy == Throwing
      requires 3 <= |bs| && start + 3 == stream.begin && stream.Unconsumed() == bs[3..]
      modifies stream
      ensures stream.Valid() && stream.end == old(stream.end) && stream.error == old(stream.error)
      ensures old(stream.begin) <= stream.begin
      ensures (r, stream.begin - start) == (match Decode(h.msgType.schema, bs[3..])
        case None => (Err(ReadPastEnd), 3)
        case Some((v, n)) =>
          if |bs| < 4 + n then (Err(ReadPastEnd), 3 + n)
          else if bs[3 + n] != tokens.end then (Err(BadEnd(bs[3 + n])), 4 + n)
          else (Ok(Delivered(h.user, v)), 4 + n))
    {
      var msg := stream.ThrowDeserialize(h.msgType.schema);
      if msg.Err? {
        return Err(ReadPastEnd);
      }
      ghost var n := Decode(h.msgType.schema, bs[3..]).value.1;
      assert stream.Unconsumed() == bs[3 + n..];
      var t := stream.ThrowDeserialize(Token);
      if t.Err? {
        return Err(ReadPastEnd);
      }
      var token := t.value.bytes[0];
      if token != tokens.end {
        return Err(BadEnd(token));
      }
      r := Ok(Delivered(h.user, msg.value));
    }
  }

  /** Since `start`, the stream wrote the first `begin - start` bytes of
      `frame` over `before`, and nothing else. */
  ghost predicate WrotePrefix(stream: Stream, start: nat, before: seq<byte>, frame: seq<byte>)
    reads stream, stream.buf
  {
    && stream.Valid() && |before| == stream.buf.Length
    && start <= stream.begin <= start + |frame|
    && stream.buf[..] == Splice(before, start, frame[..stream.begin - start])
  }

  /** The state after streaming the first `cut` bytes of `frame`, starting
      at `start`, with `failed` the checked stream's error flag before the
      first part: a raw stream and a throwing one that has not thrown are
      right after them, a checked one is either there or has set its
      error flag, which stays set. */
  ghost predicate StreamedUpTo(stream: Stream, start: nat, before: seq<byte>, frame: seq<byte>,
                               failed: bool, cut: nat)
    reads stream, stream.buf
  {
    && WrotePrefix(stream, start, before, frame)
    && (stream.policy != Checked ==> stream.error == failed)
    && (stream.policy == Raw ==> stream.begin == start + cut)
    && (stream.policy == Throwing ==> stream.begin == start + cut && cut <= stream.end - start)
    && (stream.policy == Checked && failed ==> stream.error && stream.begin == start)
    && (stream.policy == Checked && !failed ==>
          && (stream.error <==> cut > stream.end - start)
          && (!stream.error ==> stream.begin == start + cut))
  }

  /** A throwing stream threw a write overflow: the frame did not fit in
      what was left of the span, and what was written before is a prefix
      of the frame. */
  ghost predicate Thrown(stream: Stream, start: nat, before: seq<byte>, frame: seq<byte>,
                         failed: bool, r: Outcome<Overflow>)
    reads stream, stream.buf
  {
    && r.Fail? && r.error == WriteOverflow && stream.policy == Throwing
    && start + |frame| > stream.end
    && WrotePrefix(stream, start, before, frame)
    && stream.error == failed
  }

  /** The first three `<<` of the chain in `Parser.Serialize`: the begin
      token, the id and the separator. */
  method PutHeader(stream: Stream, tokens: Tokens, id: byte, ghost start: nat, ghost before: seq<byte>,
                   ghost frame: seq<byte>, ghost failed: bool)
    returns (r: Outcome<Overflow>)
    requires 3 <= |frame| && frame[..3] == [tokens.begin, id, tokens.separator]
    requires stream.Valid() && stream.begin == start && stream.buf[..] == before && stream.error == failed
    requires stream.policy == Raw ==> start + |frame| <= stream.end
    modifies stream, stream.buf
    ensures stream.end == old(stream.end)
    ensures r.Pass? ==> StreamedUpTo(stream, start, before, frame, failed, 3)
    ensures r.Fail? ==> Thrown(stream, start, before, frame, failed, r)
  {
    assert frame[..0] == [];
    assert Splice(before, start, []) == before;
    r := Put(stream, Token, TokenValue(tokens.begin), start, before, frame, failed, 0, Pass);
    r := Put(stream, Token, TokenValue(id), start, before, frame, failed, 1, r);
    r := Put(stream, Token, TokenValue(tokens.separator), start, before, frame, failed, 2, r);
  }

  /** One `<<` of the chain in `Parser.Serialize`: streams the part of
      `frame` that starts at offset `lo`, unless an earlier `<<` threw, in
      which case the exception goes on up. Only a throwing stream throws. */
  method Put(stream: Stream, s: Schema, x: Value, ghost start: nat, ghost before: seq<byte>,
             ghost frame: seq<byte>, ghost failed: bool, ghost lo: nat, prev: Outcome<Overflow>)
    returns (r: Outcome<Overflow>)
    requires Conforms(s, x) && Fits(s, x) && lo + Size(s, x) <= |frame| && frame[lo..lo + Size(s, x)] == Encode(s, x)
    requires prev.Pass? ==> StreamedUpTo(stream, start, before, frame, failed, lo)
    requires prev.Fail? ==> Thrown(stream, start, before, frame, failed, prev)
    requires stream.policy == Raw ==> start + |frame| <= stream.end
    modifies stream, stream.buf
    ensures stream.end == old(stream.end)
    ensures r.Pass? ==> StreamedUpTo(stream, start, before, frame, failed, lo + Size(s, x))
    ensures r.Fail? ==> Thrown(stream, start, before, frame, failed, r)
  {
    if prev.Fail? {
      return prev;
    }
    match stream.policy
    case Raw => r := PutRaw(stream, s, x, start, before, frame, failed, lo);
    case Checked => r := PutChecked(stream, s, x, start, before, frame, failed, lo);
    case Throwing => r := PutThrowing(stream, s, x, start, before, frame, failed, lo);
  }

  /** `<<` on a raw stream: the part is written unchecked. */
  method PutRaw(stream: Stream, s: Schema, x: Value, ghost start: nat, ghost before: seq<byte>,
             ghost frame: seq<byte>, ghost failed: bool, ghost lo: nat)
    returns (r: Outcome<Overflow>)
    requires Conforms(s, x) && Fits(s, x) && lo + Size(s, x) <= |frame| && frame[lo..lo + Size(s, x)] == Encode(s, x)
    requires StreamedUpTo(stream, start, before, frame, failed, lo)
    requires stream.policy == Raw && start + |frame| <= stream.end
    modifies stream, stream.buf
    ensures stream.end == old(stream.end)
    ensures r.Pass? ==> StreamedUpTo(stream, start, before, frame, failed, lo + Size(s, x))
    ensures r.Fail? ==> Thrown(stream, start, before, frame, failed, r)
  {
    ghost var mid, at := stream.buf[..], stream.begin;
    r := stream.Write(s, x);
    assert r == Pass && stream.error == failed;
    assert stream.begin == at + Size(s, x) && stream.buf[..] == Splice(mid, at, Encode(s, x));
    PrefixGrows(before, start, frame, lo, Encode(s, x), mid, stream.buf[..]);
    assert stream.begin == start + lo + Size(s, x);
    assert WrotePrefix(stream, start, before, frame);
  }

  /** `<<` on a checked stream: the part is written if no error was
      recorded and it fits; otherwise the error flag is set. */
  method PutChecked(stream: Stream, s: Schema, x: Value, ghost start: nat, ghost before: seq<byte>,
             ghost frame: seq<byte>, ghost failed: bool, ghost lo: nat)
    returns (r: Outcome<Overflow>)
    requires Conforms(s, x) && Fits(s, x) && lo + Size(s, x) <= |frame| && frame[lo..lo + Size(s, x)] == Encode(s, x)
    requires StreamedUpTo(stream, start, before, frame, failed, lo)
    requires stream.policy == Checked
    modifies stream, stream.buf
    ensures stream.end == old(stream.end)
    ensures r.Pass? ==> StreamedUpTo(stream, start, before, frame, failed, lo + Size(s, x))
    ensures r.Fail? ==> Thrown(stream, start, before, frame, failed, r)
  {
    ghost var mid, at, err := stream.buf[..], stream.begin, stream.error;
    assert !err ==> at == start + lo;
    r := stream.Write(s, x);
    assert r == Pass;
    if !stream.error {
      assert !err && stream.begin == at + Size(s, x) && stream.buf[..] == Splice(mid, at, Encode(s, x));
      PrefixGrows(before, start, frame, lo, Encode(s, x), mid, stream.buf[..]);
      assert stream.begin == start + lo + Size(s, x);
    } else {
      assert stream.begin == at && stream.buf[..] == mid;
    }
    assert WrotePrefix(stream, start, before, frame);
  }

  /** `<<` on a throwing stream: the part is written if it fits; otherwise
      the write overflow is thrown. */
  method PutThrowing(stream: Stream, s: Schema, x: Value, ghost start: nat, ghost before: seq<byte>,
             ghost frame: seq<byte>, ghost failed: bool, ghost lo: nat)
    returns (r: Outcome<Overflow>)
    requires Conforms(s, x) && Fits(s, x) && lo + Size(s, x) <= |frame| && frame[lo..lo + Size(s, x)] == Encode(s, x)
    requires StreamedUpTo(stream, start, before, frame, failed, lo)
    requires stream.policy == Throwing
    modifies stream, stream.buf
    ensures stream.end == old(stream.end)
    ensures r.Pass? ==> StreamedUpTo(stream, start, before, frame, failed, lo + Size(s, x))
    ensures r.Fail? ==> Thrown(stream, start, before, frame, failed, r)
  {
    ghost var mid, at := stream.buf[..], stream.begin;
    r := stream.Write(s, x);
    if r.Pass? {
      assert stream.begin == at + Size(s, x) && stream.buf[..] == Splice(mid, at, Encode(s, x));
      PrefixGrows(before, start, frame, lo, Encode(s, x), mid, stream.buf[..]);
      assert stream.begin == start + lo + Size(s, x);
    } else {
      assert stream.begin == at && stream.buf[..] == mid;
    }
    assert stream.error == failed && WrotePrefix(stream, start, before, frame);
  }

  /** Writing the next part of `frame` after a written prefix of it leaves
      a longer written prefix. */
  lemma PrefixGrows(before: seq<byte>, start: nat, frame: seq<byte>, lo: nat, part: seq<byte>,
                    mid: seq<byte>, after: seq<byte>)
    requires lo + |part| <= |frame| && start + lo + |part| <= |before|
    requires frame[lo..lo + |part|] == part
    requires mid == Splice(before, start, frame[..lo])
    requires after == Splice(mid, start + lo, part)
    ensures after == Splice(before, start, frame[..lo + |part|])
  {
    SpliceTwice(before, start, frame[..lo], part);
    assert frame[..lo] + part == frame[..lo + |part|];
  }

  // ---------------------------------------------------------------------
  // Properties of the envelope
  // ---------------------------------------------------------------------

  /** A frame written by `serialize` is accepted by `deserialize` on a
      parser whose callback for that id takes that message type: the
      callback gets the message back, and exactly the frame is consumed. */
  lemma FrameRoundTrip(tokens: Tokens, callbacks: seq<Option<Handler>>, h: Handler, v: Value, rest: seq<byte>)
    requires |callbacks| == Slots && IsValidId(h.msgType.id) && callbacks[h.msgType.id] == Some(h)
    requires Conforms(h.msgType.schema, v) && Fits(h.msgType.schema, v)
    ensures Deframe(tokens, callbacks, Frame(tokens, h.msgType, v) + rest)
            == (Ok(Delivered(h.user, v)), |Frame(tokens, h.msgType, v)|)
  {
    var e := Encode(h.msgType.schema, v);
    var bs := Frame(tokens, h.msgType, v) + rest;
    assert bs == [tokens.begin, ByteOfId(h.msgType.id), tokens.separator] + (e + ([tokens.end] + rest));
    assert bs[3..] == e + ([tokens.end] + rest);
    RoundTrip(h.msgType.schema, v, [tokens.end] + rest);
    IdByteRoundTrip(h.msgType.id, 0);
    assert bs[3 + |e|] == tokens.end;
  }

  /** The checks come in the source's order: a wrong begin token, then an
      invalid id, then a missing callback, which is reported once begin and
      id are consumed, even when no separator follows. */
  lemma DeframeChecksInOrder(tokens: Tokens, callbacks: seq<Option<Handler>>, bs: seq<byte>)
    requires |callbacks| == Slots && |bs| >= 1
    ensures bs[0] != tokens.begin ==> Deframe(tokens, callbacks, bs) == (Err(BadBegin(bs[0])), 1)
    ensures bs[0] == tokens.begin && |bs| >= 2 && !IsValidId(IdOfByte(bs[1])) ==>
              Deframe(tokens, callbacks, bs) == (Err(BadId(IdOfByte(bs[1]))), 2)
    ensures bs[0] == tokens.begin && |bs| >= 2 && bs[1] as int <= IdMax && callbacks[bs[1]].None? ==>
              Deframe(tokens, callbacks, bs) == (Err(NoCallback(bs[1] as int)), 2)
    ensures Deframe(tokens, callbacks, bs).0.Ok? ==>
              && bs[0] == tokens.begin && IsValidId(IdOfByte(bs[1]))
              && callbacks[IdOfByte(bs[1])].Some? && bs[2] == tokens.separator
              && bs[Deframe(tokens, callbacks, bs).1 - 1] == tokens.end
  {
    if |bs| >= 2 {
      ValidIdBytes(bs[1]);
    }
  }

  /** Only the handler registered for the id in the frame is ever called,
      with a message of its own type, which it was registered for. */
  lemma DeframeDeliversToRegistered(tokens: Tokens, callbacks: seq<Option<Handler>>, bs: seq<byte>)
    requires WellFormed(callbacks)
    ensures var (r, n) := Deframe(tokens, callbacks, bs);
      r.Ok? ==> |bs| >= 2 && IsValidId(IdOfByte(bs[1]))
                && callbacks[IdOfByte(bs[1])].Some?
                && r.value.user == callbacks[IdOfByte(bs[1])].value.user
                && Conforms(callbacks[IdOfByte(bs[1])].value.msgType.schema, r.value.msg)
                && callbacks[IdOfByte(bs[1])].value.msgType.id == IdOfByte(bs[1])
  {
    var (r, n) := Deframe(tokens, callbacks, bs);
    if r.Ok? {
      var id := IdOfByte(bs[1]);
      var h := callbacks[id].value;
      DecodeWellFormed(h.msgType.schema, bs[3..]);
      assert callbacks[id].Some? && callbacks[id].value.user == r.value.user;
    }
  }

  /** `login_request` (id 0: an account and a password, two strings) is
      framed as `{`, 0, `:`, the two strings, `}`. */
  const LoginRequest := MessageType(0, Tuple([Array(1), Array(1)]))

  lemma LoginFrame(account: seq<Value>, password: seq<Value>)
    requires AllBlobs(account, 1) && AllBlobs(password, 1)
    ensures Conforms(LoginRequest.schema, Fields([Items(account), Items(password)]))
    ensures var f := Frame(DefaultTokens, LoginRequest, Fields([Items(account), Items(password)]));
      f[..3] == [123, 0, 58] && f[|f| - 1] == 125
      && f[3..|f| - 1] == EncodeCount(|account|) + Flatten(account) + EncodeCount(|password|) + Flatten(password)
  {
    var a, p := Items(account), Items(password);
    var v := Fields([a, p]);
    var s := LoginRequest.schema;
    assert Conforms(s, v);
    var ea := Encode(Array(1), a);
    var ep := Encode(Array(1), p);
    assert ea == EncodeCount(|account|) + Flatten(account);
    assert ep == EncodeCount(|password|) + Flatten(password);
    assert v.fields[1..] == [p] && [p][1..] == [];
    assert EncodeFields(s, [p], 1) == ep + EncodeFields(s, [], 2);
    assert Encode(s, v) == ea + ep;
    var f := Frame(DefaultTokens, LoginRequest, v);
    assert f == [123, 0, 58] + (ea + ep) + [125];
  }

  /** The message of the parser test: id 12, an `int` and a
      `std::string`. */
  const TestMessage := MessageType(12, Tuple([Trivial(4), Array(1)]))

  /** `{42, "hello"}`, the `int` in little-endian order. */
  const TestValue := Fields([Blob([42, 0, 0, 0]),
                             Items([Blob([104]), Blob([101]), Blob([108]), Blob([108]), Blob([111])])])

  /** The test message conforms to its schema, fits the 16-bit counts
      and takes 11 bytes, so its frame takes 15. */
  lemma TestValueFits()
    ensures Conforms(TestMessage.schema, TestValue) && Fits(TestMessage.schema, TestValue)
    ensures Size(TestMessage.schema, TestValue) == 11
    ensures |Frame(DefaultTokens, TestMessage, TestValue)| == 15
  {
    assert TestValue.fields[1..][1..] == [];
  }

  /** The sending half of the parser test: one parser serializes the
      message into a 100-byte throwing stream, whose `begin` is then reset
      to the start of the buffer, where the frame now lies. */
  method SendTest() returns (span: Stream, ghost rest: seq<byte>)
    ensures fresh(span) && span.Valid() && span.policy == Throwing
    ensures span.Unconsumed() == Frame(DefaultTokens, TestMessage, TestValue) + rest
  {
    TestValueFits();
    var buffer := new byte[100];
    span := new Stream(Throwing, buffer);
    var sender := new Parser(DefaultTokens);
    ghost var before := buffer[..];
    var w := sender.Serialize(span, TestMessage, TestValue);
    ghost var frame := Frame(DefaultTokens, TestMessage, TestValue);
    assert w.Pass? && span.begin == 15;
    span.begin := 0;
    rest := before[15..];
    assert span.Unconsumed() == frame + rest by {
      assert frame[..15] == frame;
      assert buffer[..] == Splice(before, 0, frame);
    }
  }

  /** The parser test: a second parser with a callback for id 12 reads
      the frame back from the start and hands the callback an equal
      message. */
  method ParserTest(user: nat) returns (r: Result<Delivery, Failure>)
    ensures r == Ok(Delivered(user, TestValue))
  {
    TestValueFits();
    var span, rest := SendTest();
    var received := new Parser(DefaultTokens);
    var h := Handler(TestMessage, user);
    received.SetCallback(h);
    FrameRoundTrip(DefaultTokens, received.callbacks, h, TestValue, rest);
    r := received.Deserialize(span);
  }
}
