/**
 * That the end is reached: for every configuration whose payloads encode there is a possible run of
 * the driver, from the first probe to the setup of the data channel, in which every reply leads on.
 */
module Reached {
  import opened Wrappers
  import opened ByteSeqs
  import opened Codec
  import opened DecodingLaws
  import opened Framing
  import opened Messages
  import opened Transport
  import opened Session
  import opened Bringup
  import opened Pairing
  import opened Runs
  import Endings
  import Requests

  // ---------------------------------------------------------------- replies with strings

  /** An integer field, and a string field of a short string, in front of more payload. */
  function Number(t: seq<byte>): seq<byte> {
    AsnInt(0) + t
  }

  function Text(b: seq<byte>, t: seq<byte>): seq<byte>
    requires |b| < 128
  {
    [TAG_STRING_U8, |b|] + (AsnInt(0) + (AsnInt(0) + (b + (Zeros(0) + t))))
  }

  lemma {:induction false} NumberDecodes(t: seq<byte>, vs: seq<Value>)
    requires Decoded(t) == Ok(vs)
    ensures Decoded(Number(t)) == Ok([Int(0)] + vs)
  {
    DecodedAsnInt(0, t);
  }

  lemma {:induction false} TextDecodes(b: seq<byte>, t: seq<byte>, vs: seq<Value>)
    requires |b| < 128 && Decoded(t) == Ok(vs)
    ensures Decoded(Text(b, t)) == Ok([Bytes(b)] + vs)
  {
    ZeroCountIsUnchecked(b, 0, t);
    assert ValueField(Text(b, t)) == Got(Bytes(b), t);
  }

  /** The last four integers of both replies. */
  function Trailer(): seq<byte> {
    Number(Number(Number(Number([]))))
  }

  const FOUR: seq<Value> := [Int(0), Int(0), Int(0), Int(0)]

  lemma {:induction false} TrailerDecodes()
    ensures Decoded(Trailer()) == Ok(FOUR)
  {
    assert Decoded([]) == Ok([]);
    hide Decoded, Number;
    NumberDecodes([], []);
    NumberDecodes(Number([]), [Int(0)] + []);
    NumberDecodes(Number(Number([])), [Int(0)] + ([Int(0)] + []));
    NumberDecodes(Number(Number(Number([]))), [Int(0)] + ([Int(0)] + ([Int(0)] + [])));
    assert [Int(0)] + ([Int(0)] + ([Int(0)] + ([Int(0)] + []))) == FOUR;
  }

  /** The candidates 10.0.0.1 and two that are not assigned. */
  const CANDIDATES: seq<byte> := [10, 0, 0, 1, 0, 0, 0, 0, 0, 0, 0, 0]

  function IpBody(): seq<byte> {
    Number(Text(CANDIDATES, Trailer()))
  }

  function IpContent(): seq<Value> {
    [Int(0)] + ([Bytes(CANDIDATES)] + FOUR)
  }

  lemma {:induction false} IpDecodes()
    ensures Decoded(IpBody()) == Ok(IpContent())
  {
    hide Decoded, Number, Text, Trailer;
    TrailerDecodes();
    TextDecodes(CANDIDATES, Trailer(), FOUR);
    NumberDecodes(Text(CANDIDATES, Trailer()), [Bytes(CANDIDATES)] + FOUR);
  }

  /** Empty server slots in front of more payload. */
  function Slots(n: nat, t: seq<byte>): seq<byte> {
    if n == 0 then t else Text([], Number(Slots(n - 1, t)))
  }

  function SlotValues(n: nat): (vs: seq<Value>)
    ensures |vs| == 2 * n
    ensures forall k :: 0 <= k < 2 * n ==> vs[k] == if k % 2 == 0 then Bytes([]) else Int(0)
  {
    if n == 0 then [] else [Bytes([]), Int(0)] + SlotValues(n - 1)
  }

  lemma {:induction false} SlotsDecode(n: nat, t: seq<byte>, vs: seq<Value>)
    requires Decoded(t) == Ok(vs)
    ensures Decoded(Slots(n, t)) == Ok(SlotValues(n) + vs)
    decreases n
  {
    hide Decoded, Number, Text;
    if n == 0 {
      assert [] + vs == vs;
    } else {
      SlotsDecode(n - 1, t, vs);
      NumberDecodes(Slots(n - 1, t), SlotValues(n - 1) + vs);
      TextDecodes([], Number(Slots(n - 1, t)), [Int(0)] + (SlotValues(n - 1) + vs));
      assert [Bytes([])] + ([Int(0)] + (SlotValues(n - 1) + vs)) == [Bytes([]), Int(0)] + SlotValues(n - 1) + vs;
    }
  }

  function DnsBody(): seq<byte> {
    Number(Slots(16, Number(Text([], Trailer()))))
  }

  function DnsContent(): seq<Value> {
    [Int(0)] + (SlotValues(16) + ([Int(0)] + ([Bytes([])] + FOUR)))
  }

  lemma {:induction false} DnsDecodes()
    ensures Decoded(DnsBody()) == Ok(DnsContent())
  {
    hide Decoded, Number, Text, Trailer, Slots, SlotValues;
    TrailerDecodes();
    TextDecodes([], Trailer(), FOUR);
    NumberDecodes(Text([], Trailer()), [Bytes([])] + FOUR);
    SlotsDecode(16, Number(Text([], Trailer())), [Int(0)] + ([Bytes([])] + FOUR));
    NumberDecodes(Slots(16, Number(Text([], Trailer()))), SlotValues(16) + ([Int(0)] + ([Bytes([])] + FOUR)));
  }

  lemma {:induction false} DnsHasSlots()
    ensures Endings.HasServerSlots(DnsContent())
  {
    DnsContentIs();
    hide DnsContent, SlotValues;
    var slots, ends := SlotValues(16), [Int(0), Bytes([]), Int(0), Int(0), Int(0), Int(0)];
    var vs := [Int(0)] + (slots + ends);
    forall k | 0 <= k < 39 ensures vs[k].Bytes? <==> (k < 33 && k % 2 == 1) || k == 34 {
      if 1 <= k < 33 {
        assert vs[k] == slots[k - 1];
      } else if k >= 33 {
        assert vs[k] == ends[k - 33];
      }
    }
  }

  lemma {:induction false} DnsContentIs()
    ensures |SlotValues(16)| == 32 && forall k :: 0 <= k < 32 ==> (SlotValues(16)[k].Bytes? <==> k % 2 == 0)
    ensures DnsContent() == [Int(0)] + (SlotValues(16) + [Int(0), Bytes([]), Int(0), Int(0), Int(0), Int(0)])
  {
    assert [Int(0)] + ([Bytes([])] + FOUR) == [Int(0), Bytes([]), Int(0), Int(0), Int(0), Int(0)];
  }

  // ---------------------------------------------------------------- the messages

  function ReplyTo(body: seq<byte>): seq<byte> {
    Packet(0, body, Sync)
  }

  function MessageOf(body: seq<byte>, content: seq<Value>): Message {
    Message(TXID_SYNC, Response, 0, body, content)
  }

  lemma {:induction false} ReplyToReads(body: seq<byte>, content: seq<Value>)
    requires Decoded(body) == Ok(content) && |body| < 1000
    ensures |ReplyTo(body)| <= READ_BUF_LEN && IsFrame(ReplyTo(body))
    ensures ParsedMessage(ReplyTo(body)) == Ok(MessageOf(body, content))
  {
    assert |ReplyTo(body)| == 20 + |body|;
    hide Packet, IsFrame, ParsedMessage, Decoded;
    PacketIsFrame(0, body, Sync);
    PacketReadsBack(0, body, Sync);
  }

  lemma {:induction false} TextLength(b: seq<byte>, t: seq<byte>)
    requires |b| < 128
    ensures |Text(b, t)| == 14 + |b| + |t|
  {
  }

  lemma {:induction false} SlotsLength(n: nat, t: seq<byte>)
    ensures |Slots(n, t)| == 20 * n + |t|
    decreases n
  {
    hide Text;
    if n > 0 {
      SlotsLength(n - 1, t);
      TextLength([], Number(Slots(n - 1, t)));
    }
  }

  lemma {:induction false} BodiesAreShort()
    ensures |Trailer()| == 24 && |IpBody()| < 1000 && |DnsBody()| < 1000
  {
    hide Text, Slots;
    assert |Trailer()| == 24;
    TextLength(CANDIDATES, Trailer());
    TextLength([], Trailer());
    SlotsLength(16, Number(Text([], Trailer())));
  }

  /** The reply of zeros moves the steps on that do not look for a string. */
  lemma {:induction false} ZerosMove(cfg: Config)
    ensures Answered(cfg, Version, FrameMessage()) == Ready(ApnConfig)
    ensures Answered(cfg, ApnConfig, FrameMessage()) == Ready(Attach)
    ensures Answered(cfg, Attach, FrameMessage()) == Ready(AskIp)
    ensures Answered(cfg, PsConnect, FrameMessage()) == Ready(DataChannel(Zeroes()))
    ensures Answered(cfg, DataChannel(Zeroes()), FrameMessage()) == Ready(Setup(Splice(Zeroes(), Zeroes())))
    ensures Answered(cfg, Setup(Splice(Zeroes(), Zeroes())), FrameMessage()) == Up
  {
    ZerosDecode();
    hide Decoded, Unpacked, Zeroes, Splice;
    AttachDecision(cfg, FrameMessage());
  }

  lemma {:induction false} IpHasCandidates()
    ensures HasCandidates(IpContent()) && IpContent()[1].bytes[0] != 0
  {
    assert IpContent() == [Int(0), Bytes(CANDIDATES), Int(0), Int(0), Int(0), Int(0)];
  }

  lemma {:induction false} IpMoves(cfg: Config)
    ensures Answered(cfg, AskIp, MessageOf(IpBody(), IpContent())) == Ready(AskDns(true))
  {
    hide Decoded, IpBody, IpContent, Unpacked, Answered, CarriesAddress, HasCandidates;
    IpDecodes();
    IpHasCandidates();
    AddressDecision(cfg, MessageOf(IpBody(), IpContent()));
  }

  lemma {:induction false} DnsMoves(cfg: Config)
    ensures Answered(cfg, AskDns(true), MessageOf(DnsBody(), DnsContent())) == Ready(PsConnect)
  {
    DnsDecodes();
    DnsHasSlots();
    hide Decoded, DnsBody, DnsContent, Unpacked;
    Requests.DnsOfDecoded(DnsBody());
  }

  // ---------------------------------------------------------------- the run

  /** A request behind the opening, answered at once. */
  function Exchanged(request: Request, f: seq<byte>, id: nat): Served {
    Served(Send(request), [Emitted(f, Some(id))], [])
  }

  /** One such exchange more. */
  lemma {:induction false} ExchangeStep(cfg: Config, port: Port, run: seq<Served>, step: Step, request: Request,
                                        f: Chunk, m: Message, rest: seq<Event>, writes: nat, n: nat)
    requires Stands(cfg, port, run, Ready(step), [Read(f)] + rest, writes + 1, Idle(n))
    requires IsFrame(f) && ParsedMessage(f) == Ok(m) && m.kind.Response? && IsRequest(cfg, step, request)
    ensures Stands(cfg, port, run + [Exchanged(request, f, n)], Answered(cfg, step, m), rest, writes, Idle(n + 1))
  {
    var e, d := Emitted(f, Some(n)), Exchanged(request, f, n);
    assert e.WellSorted() && e.raw == f && d.emitted == [e] && d.late == [];
    assert [Read(f)] + [] == [Read(f)];
    hide *;
    FrameAwaited(f, m, []);
    PromptAnswer(e, n, f, m);
    AnswerStep(cfg, port, run, step, f, m, rest, writes, Idle(n), d);
  }

  /** The frames behind the opening, in order. */
  function FrameAt(k: nat): seq<byte> {
    if k == 3 then ReplyTo(IpBody()) else if k == 4 then ReplyTo(DnsBody()) else Frame()
  }

  function MessageAt(k: nat): Message {
    if k == 3 then MessageOf(IpBody(), IpContent())
    else if k == 4 then MessageOf(DnsBody(), DnsContent())
    else FrameMessage()
  }

  lemma {:induction false} FrameAtReads(k: nat)
    ensures |FrameAt(k)| <= READ_BUF_LEN && IsFrame(FrameAt(k)) && ParsedMessage(FrameAt(k)) == Ok(MessageAt(k))
    ensures MessageAt(k).kind.Response?
  {
    hide IsFrame, ParsedMessage, ReplyTo, IpBody, DnsBody, IpContent, DnsContent, Frame, Zeroes, Decoded;
    ReplyReads();
    BodiesAreShort();
    IpDecodes();
    DnsDecodes();
    ReplyToReads(IpBody(), IpContent());
    ReplyToReads(DnsBody(), DnsContent());
  }

  /** The steps behind the opening, in order, and where they lead. */
  function Closing(k: nat): Phase {
    match k
    case 0 => Ready(Version)
    case 1 => Ready(ApnConfig)
    case 2 => Ready(Attach)
    case 3 => Ready(AskIp)
    case 4 => Ready(AskDns(true))
    case 5 => Ready(PsConnect)
    case 6 => Ready(DataChannel(Zeroes()))
    case 7 => Ready(Setup(Splice(Zeroes(), Zeroes())))
    case _ => Up
  }

  lemma {:induction false} ClosingMoves(cfg: Config, k: nat)
    requires k < 8
    ensures Closing(k).Ready? && Answered(cfg, Closing(k).step, MessageAt(k)) == Closing(k + 1)
  {
    hide Answered, IpBody, DnsBody, IpContent, DnsContent, Frame, Zeroes, Splice;
    ZerosMove(cfg);
    IpMoves(cfg);
    DnsMoves(cfg);
  }

  function ClosingRequest(cfg: Config, k: nat): Request {
    match k
    case 3 => Request(0x049, cfg.bodies.negIp, Async)
    case 4 => Request(0x047, cfg.bodies.negDns, Async)
    case 5 => Request(0x051, cfg.bodies.psConnect, Async)
    case 6 => Request(0x07e, if cfg.bodies.path.Ok? then cfg.bodies.path.value else [], Sync)
    case 7 => Request(0x07d, Splice(Zeroes(), Zeroes()), Sync)
    case _ => RequestFor(cfg, if k == 0 then Version else if k == 1 then ApnConfig else Attach)
  }

  lemma {:induction false} ClosingIsRequest(cfg: Config, k: nat)
    requires k < 8 && cfg.bodies.apnConfig.Ok? && cfg.bodies.path.Ok?
    ensures Closing(k).Ready? && IsRequest(cfg, Closing(k).step, ClosingRequest(cfg, k))
  {
    hide Zeroes, Splice;
  }

  /** What the port has to give from the `k`th of these steps on. */
  function Remainder(k: nat): seq<Event>
    decreases 8 - k
  {
    if k >= 8 then []
    else
      FrameAtReads(k);
      [Read(FrameAt(k))] + Remainder(k + 1)
  }

  function WholePort(): Port {
    PortFor(Remainder(0), 8)
  }

  /** The run up to the `k`th of these steps. */
  function WholeRun(cfg: Config, k: nat): seq<Served> {
    if k == 0 then Prompts(cfg, 10) + [Confirmed()]
    else WholeRun(cfg, k - 1) + [Exchanged(ClosingRequest(cfg, k - 1), FrameAt(k - 1), 9 + k)]
  }

  lemma {:induction false} WholeRunStands(cfg: Config, k: nat)
    requires k <= 8 && cfg.bodies.apnConfig.Ok? && cfg.bodies.path.Ok?
    ensures Stands(cfg, WholePort(), WholeRun(cfg, k), Closing(k), Remainder(k), 8 - k, Idle(10 + k))
    decreases k
  {
    hide *;
    if k == 0 {
      WholeRunStarts(cfg);
    } else {
      WholeRunStands(cfg, k - 1);
      WholeRunGoesOn(cfg, k - 1);
    }
  }

  lemma {:induction false} WholeRunGoesOn(cfg: Config, k: nat)
    requires k < 8 && cfg.bodies.apnConfig.Ok? && cfg.bodies.path.Ok?
    requires Stands(cfg, WholePort(), WholeRun(cfg, k), Closing(k), Remainder(k), 8 - k, Idle(10 + k))
    ensures Stands(cfg, WholePort(), WholeRun(cfg, k + 1), Closing(k + 1), Remainder(k + 1), 7 - k, Idle(11 + k))
  {
    hide *;
    FrameAtReads(k);
    OneMoreExchange(cfg, k + 1);
    ClosingMoves(cfg, k);
    ClosingIsRequest(cfg, k);
    ExchangeStep(cfg, WholePort(), WholeRun(cfg, k), Closing(k).step, ClosingRequest(cfg, k),
                 FrameAt(k), MessageAt(k), Remainder(k + 1), 7 - k, 10 + k);
  }

  lemma {:induction false} WholeRunStarts(cfg: Config)
    ensures Stands(cfg, WholePort(), WholeRun(cfg, 0), Closing(0), Remainder(0), 8, Idle(10))
  {
    hide Stands, Remainder, PortFor, Prompts, Confirmed, Idle;
    UpToVersion(cfg, Remainder(0), 8);
  }

  lemma {:induction false} OneMoreExchange(cfg: Config, k: nat)
    requires 0 < k <= 8
    ensures |FrameAt(k - 1)| <= READ_BUF_LEN
    ensures WholeRun(cfg, k) == WholeRun(cfg, k - 1) + [Exchanged(ClosingRequest(cfg, k - 1), FrameAt(k - 1), 9 + k)]
    ensures Remainder(k - 1) == [Read(FrameAt(k - 1))] + Remainder(k)
  {
    hide FrameAt, MessageAt, ClosingRequest, Exchanged, Prompts, Confirmed, IsFrame, ParsedMessage;
    FrameAtReads(k - 1);
  }

  /**
   * The data channel comes up: for every configuration whose APN and path encode there is a port, a
   * firmware that answers each request once, and a run of the driver's operations that ends at it.
   */
  lemma {:induction false} UpIsReached(cfg: Config)
    requires cfg.bodies.apnConfig.Ok? && cfg.bodies.path.Ok?
    ensures var run := WholeRun(cfg, 8);
            && PossibleRun(CallsOf(WholePort(), run))
            && PhaseOf(cfg, StateAfter(WholePort(), run).history) == Up
  {
    hide WholePort, Closing, Exchanged, PossibleRun, StateAfter, PhaseOf, CallsOf;
    assert Closing(8) == Up by {
      ClosingEnds();
    }
    WholeRunStands(cfg, 8);
  }

  lemma {:induction false} ClosingEnds()
    ensures Closing(8) == Up
  {
  }
}
