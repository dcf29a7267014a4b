/** Request headers, and the classification and decoding of incoming frames. */
module Messages {
  import opened Wrappers
  import opened ByteSeqs
  import opened Codec
  import opened DecodingLaws
  import opened Errors
  import opened Framing
  import Cursor

  const TXID_SYNC: u32 := 0x1100_0100
  const TXID_ASYNC: u32 := 0x1100_0101

  datatype Mode = Sync | Async

  datatype MessageKind = Response | AsyncAck | Unsolicited

  datatype Message = Message(tid: u32, kind: MessageKind, code: u32, body: seq<byte>, content: seq<Value>)

  /** The message a frame carries, or why it carries none. */
  function ParsedMessage(raw: seq<byte>): Result<Message, Error> {
    if |raw| < 20 then Err(Protocol(ShortMessage(|raw|)))
    else
      match IntField(raw[4..])
      case Bad(e) => Err(CodecFailure(e))
      case Got(_, r1) =>
        match IntField(r1)
        case Bad(e) => Err(CodecFailure(e))
        case Got(code, _) =>
          FromBeFits(raw[16..20]);
          Classified(FromBe(raw[16..20]), code, raw[20..])
  }

  /** The message with a given transaction word, code and payload. */
  function Classified(tid: u32, code: u32, payload: seq<byte>): Result<Message, Error> {
    match Decoded(payload)
    case Err(e) => Err(CodecFailure(e))
    case Ok(content) =>
      if tid == TXID_SYNC then Ok(Message(tid, Response, code, payload, content))
      else if tid / 256 != TXID_SYNC / 256 then Ok(Message(tid, Unsolicited, code, payload, content))
      else if code >= 2000 then Ok(Message(tid, AsyncAck, code, payload, content))
      else if content == [] || content[0].AsInt() != Some(tid) then Err(Protocol(MissingEcho(tid)))
      else
        EchoIsSixBytes(payload, tid);
        Ok(Message(tid, Response, code, payload[6..], content[1..]))
  }

  /**
   * An integer that needs its fourth byte is encoded in six bytes, so dropping six bytes of payload
   * and dropping its first value come to the same.
   */
  lemma {:induction false} EchoIsSixBytes(payload: seq<byte>, tid: u32)
    requires Decoded(payload).Ok? && tid >= 0x100_0000
    requires Decoded(payload).value != [] && Decoded(payload).value[0].AsInt() == Some(tid)
    ensures |payload| >= 6
    ensures Decoded(payload[6..]) == Ok(Decoded(payload).value[1..])
  {
    var Got(v, rest) := ValueField(payload);
    assert Decoded(payload).value == [v] + Decoded(rest).value;
    assert ([v] + Decoded(rest).value)[1..] == Decoded(rest).value;
    WideIntIsSixBytes(payload, tid, rest);
  }

  lemma {:induction false} WideIntIsSixBytes(s: seq<byte>, v: u32, rest: seq<byte>)
    requires IntField(s) == Got(v, rest) && v >= 0x100_0000
    ensures |s| >= 6 && rest == s[6..]
  {
    FromBeBound(s[2..2 + s[1]]);
    Pow256Values();
  }

  /** Decode and classify one frame. */
  method ParseMessage(raw: seq<byte>) returns (r: Result<Message, Error>)
    ensures r == ParsedMessage(raw)
  {
    if |raw| < 20 {
      return Err(Protocol(ShortMessage(|raw|)));
    }
    var reader := new Cursor.Reader(raw[4..]);
    var lenAsn := reader.TakeAsnInt();
    if lenAsn.Err? {
      return Err(CodecFailure(lenAsn.error));
    }
    var code := reader.TakeAsnInt();
    if code.Err? {
      return Err(CodecFailure(code.error));
    }
    r := Classify(raw, code.value);
  }

  /** The part of `ParseMessage` behind the two length fields. */
  method Classify(raw: seq<byte>, code: u32) returns (r: Result<Message, Error>)
    requires |raw| >= 20
    ensures FromBe(raw[16..20]) < TWO_TO_THE_32 && r == Classified(FromBe(raw[16..20]), code, raw[20..])
  {
    FromBeFits(raw[16..20]);
    var tid: u32 := FromBe(raw[16..20]);
    var body := raw[20..];
    var decoded := Cursor.DecodeValues(body);
    if decoded.Err? {
      return Err(CodecFailure(decoded.error));
    }
    var content := decoded.value;
    var kind := Unsolicited;
    if tid == TXID_SYNC {
      kind := Response;
    } else if tid / 256 == TXID_SYNC / 256 {
      if code >= 2000 {
        kind := AsyncAck;
      } else {
        var echoed := if content == [] then None else content[0].AsInt();
        if echoed != Some(tid) {
          return Err(Protocol(MissingEcho(tid)));
        }
        EchoIsSixBytes(body, tid);
        kind, content, body := Response, content[1..], body[6..];
      }
    }
    r := Ok(Message(tid, kind, code, body, content));
  }

  /** The content of a message is what its body decodes to, also when an echoed id was stripped. */
  lemma {:induction false} ContentIsDecodedBody(raw: seq<byte>)
    requires ParsedMessage(raw).Ok?
    ensures Decoded(ParsedMessage(raw).value.body) == Ok(ParsedMessage(raw).value.content)
  {
    FromBeFits(raw[16..20]);
    var tid: u32 := FromBe(raw[16..20]);
    var payload := raw[20..];
    var code := IntField(IntField(raw[4..]).rest).value;
    assert ParsedMessage(raw) == Classified(tid, code, payload);
    if tid != TXID_SYNC && tid / 256 == TXID_SYNC / 256 && code < 2000 {
      EchoIsSixBytes(payload, tid);
    }
  }

  // ---------------------------------------------------------------- requests

  /** The echoed transaction id in front of an asynchronous body. */
  function Echo(mode: Mode): seq<byte> {
    if mode.Async? then AsnInt(TXID_ASYNC) else []
  }

  function TidWord(mode: Mode): u32 {
    if mode.Async? then TXID_ASYNC else TXID_SYNC
  }

  /** The length both length words of a request carry: all of the packet but the first word. */
  function WireLength(bodyLen: nat, mode: Mode): u32 {
    (bodyLen + 16 + |Echo(mode)|) % TWO_TO_THE_32
  }

  function Header(cmd: u32, bodyLen: nat, mode: Mode): (h: seq<byte>)
    ensures |h| == 20 + |Echo(mode)|
  {
    Le32(WireLength(bodyLen, mode)) + AsnInt(WireLength(bodyLen, mode)) + AsnInt(cmd)
    + Be32(TidWord(mode)) + Echo(mode)
  }

  function Packet(cmd: u32, body: seq<byte>, mode: Mode): seq<byte> {
    Header(cmd, |body|, mode) + body
  }

  method BuildHeader(cmd: u32, bodyLen: nat, mode: Mode) returns (header: seq<byte>)
    ensures header == Header(cmd, bodyLen, mode)
  {
    var tid := if mode.Sync? then 0 else TXID_ASYNC;
    var total := bodyLen + 16 + if tid != 0 then 6 else 0;
    header := [];
    header := header + Le32(total % TWO_TO_THE_32);
    header := header + AsnInt(total % TWO_TO_THE_32);
    header := header + AsnInt(cmd);
    header := header + Be32(TidWord(mode));
    if tid != 0 {
      header := header + AsnInt(tid);
    }
  }

  lemma {:induction false} FiveParts(a: seq<byte>, b: seq<byte>, c: seq<byte>, d: seq<byte>, e: seq<byte>)
    requires |a| == |d| == 4 && |b| == |c| == 6
    ensures var p := a + b + c + d + e;
            p[..4] == a && p[4..] == b + (c + (d + e)) && p[16..20] == d && p[20..] == e
  {
  }

  lemma {:induction false} PacketParts(cmd: u32, body: seq<byte>, mode: Mode)
    ensures var p := Packet(cmd, body, mode); var n := WireLength(|body|, mode);
            && p[..4] == Le32(n)
            && p[4..] == AsnInt(n) + (AsnInt(cmd) + (Be32(TidWord(mode)) + (Echo(mode) + body)))
            && p[16..20] == Be32(TidWord(mode))
            && p[20..] == Echo(mode) + body
  {
    var n := WireLength(|body|, mode);
    FiveParts(Le32(n), AsnInt(n), AsnInt(cmd), Be32(TidWord(mode)), Echo(mode) + body);
    Associate(Le32(n) + AsnInt(n) + AsnInt(cmd) + Be32(TidWord(mode)), Echo(mode), body);
  }

  /** A request within the size limit is one frame, and both of its length words are its length less 4. */
  lemma {:induction false} PacketIsFrame(cmd: u32, body: seq<byte>, mode: Mode)
    requires |Packet(cmd, body, mode)| <= MAX_MESSAGE_LEN
    ensures var p := Packet(cmd, body, mode);
            && IsFrame(p)
            && FromLe(p[..4]) == |p| - 4
            && IntField(p[4..]).Got? && IntField(p[4..]).value == |p| - 4
  {
    var n := WireLength(|body|, mode);
    PacketParts(cmd, body, mode);
    FromLeOfLe32(n);
    IntFieldOfAsnInt(n, AsnInt(cmd) + (Be32(TidWord(mode)) + (Echo(mode) + body)));
  }

  /** A request read back as a message, whatever its command, body and mode. */
  function ReadBack(cmd: u32, body: seq<byte>, mode: Mode): Result<Message, Error> {
    match Decoded(body)
    case Err(e) => Err(CodecFailure(e))
    case Ok(values) =>
      if mode.Async? && cmd >= 2000 then
        Ok(Message(TXID_ASYNC, AsyncAck, cmd, Echo(mode) + body, [Int(TXID_ASYNC)] + values))
      else
        Ok(Message(TidWord(mode), Response, cmd, body, values))
  }

  lemma {:induction false} DecodedEcho(body: seq<byte>, mode: Mode)
    ensures Decoded(Echo(mode) + body)
            == if mode.Async? then Prepend([Int(TXID_ASYNC)], Decoded(body)) else Decoded(body)
  {
    if mode.Async? {
      DecodedAsnInt(TXID_ASYNC, body);
    } else {
      assert [] + body == body;
    }
  }

  lemma {:induction false} ClassifiedEcho(cmd: u32, body: seq<byte>, mode: Mode)
    ensures Classified(TidWord(mode), cmd, Echo(mode) + body) == ReadBack(cmd, body, mode)
  {
    DecodedEcho(body, mode);
    if Decoded(body).Ok? {
      var values := Decoded(body).value;
      assert ([Int(TXID_ASYNC)] + values)[1..] == values;
      if mode.Async? {
        assert (Echo(mode) + body)[6..] == body;
      } else {
        assert Echo(mode) + body == body;
      }
    }
  }

  /** Parsing a request's own packet gives back its command, its body and the body's values. */
  lemma {:induction false} PacketReadsBack(cmd: u32, body: seq<byte>, mode: Mode)
    ensures ParsedMessage(Packet(cmd, body, mode)) == ReadBack(cmd, body, mode)
  {
    var n := WireLength(|body|, mode);
    var p := Packet(cmd, body, mode);
    var tail := Be32(TidWord(mode)) + (Echo(mode) + body);
    PacketParts(cmd, body, mode);
    IntFieldOfAsnInt(n, AsnInt(cmd) + tail);
    IntFieldOfAsnInt(cmd, tail);
    FromBeOfBe32(TidWord(mode));
    assert ParsedMessage(p) == Classified(TidWord(mode), cmd, p[20..]);
    ClassifiedEcho(cmd, body, mode);
  }

  /** A frame with any transaction word, code and payload. */
  function RawFrame(tid: u32, code: u32, payload: seq<byte>): seq<byte> {
    var n := (16 + |payload|) % TWO_TO_THE_32;
    Le32(n) + AsnInt(n) + AsnInt(code) + Be32(tid) + payload
  }

  /**
   * Every frame, whatever its transaction word, code and payload: 0x11000100 marks a response and any
   * word outside 0x110001xx an indication; the other words mark an acknowledgement from code 2000 up,
   * and else a response that must start with an echo of the word, which is dropped.
   */
  lemma {:induction false} FrameReadsBack(tid: u32, code: u32, payload: seq<byte>)
    ensures Decoded(payload).Err? ==>
              ParsedMessage(RawFrame(tid, code, payload)) == Err(CodecFailure(Decoded(payload).error))
    ensures Decoded(payload).Ok? && Decoded(payload).value != [] && Decoded(payload).value[0] == Int(tid) && tid >= 0x1100_0100 ==>
              |payload| >= 6
    ensures Decoded(payload).Ok? ==>
              var vs := Decoded(payload).value;
              ParsedMessage(RawFrame(tid, code, payload))
              == if tid == 0x1100_0100 then Ok(Message(tid, Response, code, payload, vs))
                 else if !(0x1100_0100 <= tid <= 0x1100_01ff) then Ok(Message(tid, Unsolicited, code, payload, vs))
                 else if code >= 2000 then Ok(Message(tid, AsyncAck, code, payload, vs))
                 else if vs == [] || vs[0] != Int(tid) then Err(Protocol(MissingEcho(tid)))
                 else Ok(Message(tid, Response, code, payload[6..], vs[1..]))
  {
    RawFrameIsClassified(tid, code, payload);
    hide ParsedMessage, RawFrame, Decoded;
    if Decoded(payload).Ok? && Decoded(payload).value != [] && Decoded(payload).value[0] == Int(tid) && tid >= 0x100_0000 {
      EchoIsSixBytes(payload, tid);
    }
  }

  /**
   * Only the code, the word at byte 16 and what follows byte 20 matter, however wide the length and
   * the code are written; and a frame of fewer than 20 bytes is no message.
   */
  lemma {:induction false} ParsesByItsParts(raw: seq<byte>)
    ensures |raw| < 20 ==> ParsedMessage(raw) == Err(Protocol(ShortMessage(|raw|)))
    ensures |raw| >= 20 && IntField(raw[4..]).Bad? ==> ParsedMessage(raw) == Err(CodecFailure(IntField(raw[4..]).error))
    ensures |raw| >= 20 && IntField(raw[4..]).Got? && IntField(IntField(raw[4..]).rest).Bad? ==>
              ParsedMessage(raw) == Err(CodecFailure(IntField(IntField(raw[4..]).rest).error))
    ensures |raw| >= 20 && IntField(raw[4..]).Got? && IntField(IntField(raw[4..]).rest).Got? ==>
              && FromBe(raw[16..20]) < TWO_TO_THE_32
              && ParsedMessage(raw) == ParsedMessage(RawFrame(FromBe(raw[16..20]), IntField(IntField(raw[4..]).rest).value, raw[20..]))
  {
    if |raw| >= 20 && IntField(raw[4..]).Got? && IntField(IntField(raw[4..]).rest).Got? {
      var code, payload := IntField(IntField(raw[4..]).rest).value, raw[20..];
      FromBeFits(raw[16..20]);
      var tid: u32 := FromBe(raw[16..20]);
      RawFrameIsClassified(tid, code, payload);
    }
  }

  lemma {:induction false} RawFrameIsClassified(tid: u32, code: u32, payload: seq<byte>)
    ensures ParsedMessage(RawFrame(tid, code, payload)) == Classified(tid, code, payload)
  {
    var n := (16 + |payload|) % TWO_TO_THE_32;
    FiveParts(Le32(n), AsnInt(n), AsnInt(code), Be32(tid), payload);
    IntFieldOfAsnInt(n, AsnInt(code) + (Be32(tid) + payload));
    IntFieldOfAsnInt(code, Be32(tid) + payload);
    FromBeOfBe32(tid);
  }

  /** The transaction words of requests: 0x11000100, or 0x11000101 and that word echoed in front of the body. */
  lemma {:induction false} RequestWords(cmd: u32, body: seq<byte>)
    ensures Packet(cmd, body, Sync)[16..20] == [0x11, 0, 1, 0] && Packet(cmd, body, Sync)[20..] == body
    ensures Packet(cmd, body, Async)[16..20] == [0x11, 0, 1, 1]
    ensures Packet(cmd, body, Async)[20..] == [2, 4, 0x11, 0, 1, 1] + body
    ensures Packet(cmd, body, Async)[10..16] == Packet(cmd, body, Sync)[10..16] == [2, 4] + Be32(cmd)
  {
    WordBytes();
    assert [] + body == body && |AsnInt(cmd)| == 6;
    assert AsnInt(cmd) == [2, 4] + Be32(cmd);
    hide Packet, Be32, AsnInt;
    PacketParts(cmd, body, Sync);
    PacketParts(cmd, body, Async);
    CodeAt(cmd, body, Sync);
    CodeAt(cmd, body, Async);
  }

  lemma {:induction false} WordBytes()
    ensures Be32(TXID_SYNC) == [0x11, 0, 1, 0] && Be32(TXID_ASYNC) == [0x11, 0, 1, 1]
    ensures AsnInt(TXID_ASYNC) == [2, 4, 0x11, 0, 1, 1]
  {
  }

  lemma {:induction false} CodeAt(cmd: u32, body: seq<byte>, mode: Mode)
    ensures Packet(cmd, body, mode)[10..16] == AsnInt(cmd)
  {
    hide Le32, AsnInt, Be32, WireLength;
    var n := WireLength(|body|, mode);
    var front, back := Le32(n) + AsnInt(n), Be32(TidWord(mode)) + Echo(mode) + body;
    assert |front| == 10 && |AsnInt(cmd)| == 6;
    assert Packet(cmd, body, mode) == front + AsnInt(cmd) + back;
  }

  datatype Request = Request(cmd: u32, body: seq<byte>, mode: Mode) {
    function Bytes(): seq<byte> {
      Packet(cmd, body, mode)
    }
  }

  function PacketsOf(requests: seq<Request>): (ps: seq<seq<byte>>)
    ensures |ps| == |requests|
    ensures forall i :: 0 <= i < |ps| ==> ps[i] == requests[i].Bytes()
  {
    if requests == [] then [] else [requests[0].Bytes()] + PacketsOf(requests[1..])
  }

  /**
   * The whole stack: any list of requests within the size limit, cut into chunks in any way and
   * with any timeouts in between, arrives as those requests, one frame each.
   */
  lemma {:induction false} WholeStack(requests: seq<Request>, events: seq<Event>, timed: bool)
    requires forall i :: 0 <= i < |requests| ==> |requests[i].Bytes()| <= MAX_MESSAGE_LEN
    requires DataOf(events) == Flatten(PacketsOf(requests))
    ensures var received := AllFrames([], events, timed);
            && |received| == |requests|
            && forall i :: 0 <= i < |requests| ==>
                 ParsedMessage(received[i]) == ReadBack(requests[i].cmd, requests[i].body, requests[i].mode)
  {
    forall i | 0 <= i < |requests| ensures IsFrame(PacketsOf(requests)[i]) {
      PacketIsFrame(requests[i].cmd, requests[i].body, requests[i].mode);
    }
    FramesSurviveChunking(PacketsOf(requests), events, timed);
    forall i | 0 <= i < |requests|
      ensures ParsedMessage(PacketsOf(requests)[i]) == ReadBack(requests[i].cmd, requests[i].body, requests[i].mode)
    {
      PacketReadsBack(requests[i].cmd, requests[i].body, requests[i].mode);
    }
  }
}
