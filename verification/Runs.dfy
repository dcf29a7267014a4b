/**
 * Runs of the driver against a firmware that follows a script: what each frame read moves, and the
 * opening of a bring-up, from the first probe to the mode, on a port that gives what it takes.
 */
module Runs {
  import opened Wrappers
  import opened ByteSeqs
  import opened Codec
  import opened DecodingLaws
  import opened Errors
  import opened Framing
  import opened Messages
  import opened Transport
  import opened Session
  import opened Bringup
  import opened Pairing

  // ---------------------------------------------------------------- two frames

  /** The body of every reply of this firmware: three zeros. */
  function Zeroes(): (b: seq<byte>)
    ensures |b| == 18
  {
    AsnInt(0) + (AsnInt(0) + AsnInt(0))
  }

  /** Its reply to any request. */
  function Frame(): (f: Chunk)
    ensures |f| == 38
  {
    Packet(0, Zeroes(), Sync)
  }

  function FrameMessage(): Message {
    Message(TXID_SYNC, Response, 0, Zeroes(), [Int(0), Int(0), Int(0)])
  }

  /** The indication that mode 1 is set. */
  function ModeFrame(): (f: Chunk)
    ensures |f| == 26
  {
    Le32(22) + AsnInt(22) + AsnInt(UTA_MODE_SET_RSP_CB) + Be32(0) + AsnInt(1)
  }

  function ModeMessage(): Message {
    Message(0, Unsolicited, UTA_MODE_SET_RSP_CB, AsnInt(1), [Int(1)])
  }

  lemma {:induction false} ZerosDecode()
    ensures Decoded(Zeroes()) == Ok([Int(0), Int(0), Int(0)])
  {
    hide AsnInt;
    DecodedAsnIntAlone(0);
    DecodedAsnInt(0, AsnInt(0));
    DecodedAsnInt(0, AsnInt(0) + AsnInt(0));
    assert [Int(0)] + ([Int(0)] + [Int(0)]) == [Int(0), Int(0), Int(0)];
  }

  lemma {:induction false} ReplyReads()
    ensures IsFrame(Frame()) && ParsedMessage(Frame()) == Ok(FrameMessage())
  {
    assert |Frame()| == 38;
    hide Packet, IsFrame, ParsedMessage, Decoded;
    PacketIsFrame(0, Zeroes(), Sync);
    PacketReadsBack(0, Zeroes(), Sync);
    ZerosDecode();
  }

  lemma {:induction false} UnpackedInts(fmt: string, v: u32, t: seq<byte>)
    ensures UnpackedField(['n'] + fmt, AsnInt(v) + t)
            == match UnpackedField(fmt, t)
               case Got(vs, rest) => Got([Int(v)] + vs, rest)
               case Bad(e) => Bad(e)
  {
    IntFieldOfAsnInt(v, t);
    assert (['n'] + fmt)[1..] == fmt;
  }

  lemma {:induction false} ReplyUnpacks()
    ensures Unpacked("nnn", Zeroes()) == Ok([Int(0), Int(0), Int(0)])
    ensures Unpacked("nn", Zeroes()) == Ok([Int(0), Int(0)])
  {
    assert AsnInt(0) + [] == AsnInt(0);
    hide AsnInt, IntField;
    UnpackedInts("", 0, []);
    UnpackedInts("", 0, AsnInt(0));
    UnpackedInts("n", 0, AsnInt(0));
    UnpackedInts("n", 0, AsnInt(0) + AsnInt(0));
    UnpackedInts("nn", 0, AsnInt(0) + AsnInt(0));
    assert "nnn" == ['n'] + "nn" && "nn" == ['n'] + "n" && "n" == ['n'] + "";
    var one, two: seq<Value> := [Int(0)], [Int(0), Int(0)];
    assert [Int(0)] + [] == one && [Int(0)] + one == two && [Int(0)] + two == [Int(0), Int(0), Int(0)];
  }

  lemma {:induction false} ModeSetReads()
    ensures IsFrame(ModeFrame()) && ParsedMessage(ModeFrame()) == Ok(ModeMessage())
  {
    FiveParts(Le32(22), AsnInt(22), AsnInt(UTA_MODE_SET_RSP_CB), Be32(0), AsnInt(1));
    FromLeOfLe32(22);
    FromBeOfBe32(0);
    IntFieldOfAsnInt(22, AsnInt(UTA_MODE_SET_RSP_CB) + (Be32(0) + AsnInt(1)));
    IntFieldOfAsnInt(UTA_MODE_SET_RSP_CB, Be32(0) + AsnInt(1));
    DecodedAsnIntAlone(1);
  }

  // ---------------------------------------------------------------- one exchange

  /** A frame that is read whole, with nothing buffered. */
  lemma {:induction false} WholeFrameRead(f: seq<byte>, rest: seq<Event>, timed: bool)
    requires IsFrame(f) && |f| <= READ_BUF_LEN
    ensures FrameRead([], [Read(f)] + rest, timed) == Reading(Ok(f), [], rest)
  {
    var chunk: Chunk := f;
    var events := [Read(chunk)] + rest;
    assert f != [] && [] + chunk == chunk && events[1..] == rest;
    assert FrameRead([], events, timed) == FrameRead(chunk, rest, timed);
    assert chunk[..|f|] == f && chunk[|f|..] == [];
  }

  /** A reply that comes in at once. */
  lemma {:induction false} FrameAwaited(f: Chunk, m: Message, rest: seq<Event>)
    requires IsFrame(f) && ParsedMessage(f) == Ok(m) && m.kind.Response?
    ensures Awaited([], [Read(f)] + rest) == Answer(Ok(m), [], 1, [], rest)
  {
    hide FrameRead, ParsedMessage, IsFrame;
    WholeFrameRead(f, rest, true);
  }

  lemma {:induction false} ReplyAwaited(rest: seq<Event>)
    ensures Awaited([], [Read(Frame())] + rest) == Answer(Ok(FrameMessage()), [], 1, [], rest)
  {
    assert FrameMessage().kind.Response?;
    hide *;
    ReplyReads();
    FrameAwaited(Frame(), FrameMessage(), rest);
  }

  /** The mode indication, received. */
  lemma {:induction false} ModeSetReceived(rest: seq<Event>)
    ensures FrameRead([], [Read(ModeFrame())] + rest, false) == Reading(Ok(ModeFrame()), [], rest)
    ensures Received([], [Read(ModeFrame())] + rest, false) == Receipt(Ok(ModeMessage()), [], rest)
  {
    ModeSetReads();
    hide FrameRead;
    WholeFrameRead(ModeFrame(), rest, false);
  }

  // ---------------------------------------------------------------- steps of the run

  function Trues(n: nat): (s: seq<bool>)
    ensures |s| == n
  {
    seq(n, _ => true)
  }

  /** Where a run has come: its phase, what the port still has to give, and the session's link. */
  ghost predicate Stands(cfg: Config, port: Port, run: seq<Served>, phase: Phase, events: seq<Event>, writes: nat, link: Link) {
    var s, calls := StateAfter(port, run), CallsOf(port, run);
    && s.port == Port(events, Trues(writes), []) && s.inbuf == [] && PhaseOf(cfg, s.history) == phase
    && PossibleRun(calls) && LinkAfter(calls) == link
  }

  lemma {:induction false} RunSnoc(port: Port, run: seq<Served>, d: Served)
    ensures var s, calls := StateAfter(port, run), CallsOf(port, run);
            && StateAfter(port, run + [d]) == Done(s, d.op)
            && CallsOf(port, run + [d]) == calls + [CallOf(s, d)]
            && LinkAfter(CallsOf(port, run + [d])) == After(LinkAfter(calls), CallOf(s, d))
            && (PossibleRun(calls) && Possible(LinkAfter(calls), CallOf(s, d)) ==>
                  PossibleRun(CallsOf(port, run + [d])))
  {
    hide Done, CallOf, Possible, After;
    var n, longer := |run|, run + [d];
    assert longer[..n] == run && longer[..n + 1] == longer;
    StateSnoc(port, longer, n);
    CallsOfPrefix(port, longer, n);
    var calls, call := CallsOf(port, run), CallOf(StateAfter(port, run), d);
    assert (calls + [call])[..n] == calls;
    forall i | 0 <= i < n ensures (calls + [call])[..i] == calls[..i] {
    }
  }

  /** A request whose reply is at the front of what the port has to give. */
  lemma {:induction false} AnswerStep(cfg: Config, port: Port, run: seq<Served>, step: Step, f: Chunk, m: Message,
                                      rest: seq<Event>, writes: nat, link: Link, d: Served)
    requires Stands(cfg, port, run, Ready(step), [Read(f)] + rest, writes + 1, link)
    requires IsFrame(f) && ParsedMessage(f) == Ok(m) && m.kind.Response?
    requires d.op.Send? && IsRequest(cfg, step, d.op.request)
    requires Possible(link, Execute(d.emitted, [Read(f)], d.late))
    ensures CallOf(StateAfter(port, run), d) == Execute(d.emitted, [Read(f)], d.late)
    ensures Stands(cfg, port, run + [d], Answered(cfg, step, m), rest, writes, After(link, Execute(d.emitted, [Read(f)], d.late)))
  {
    hide StateAfter, CallsOf, Awaited, PhaseOf, LinkAfter, PossibleRun, Possible, After, Answered, IsRequest, ParsedMessage;
    var s, events := StateAfter(port, run), [Read(f)] + rest;
    FrameAwaited(f, m, rest);
    assert Tail(Trues(writes + 1)) == Trues(writes);
    assert Used(events, rest) == [Read(f)];
    RunSnoc(port, run, d);
    assert s.history + [Issued(d.op.request)] + [] == s.history + [Issued(d.op.request)];
    PhaseAfterExchange(cfg, s.history, step, d.op.request, [], Ok(m));
  }

  lemma {:induction false} ReplyStep(cfg: Config, port: Port, run: seq<Served>, step: Step, rest: seq<Event>, writes: nat,
                                     link: Link, d: Served)
    requires Stands(cfg, port, run, Ready(step), [Read(Frame())] + rest, writes + 1, link)
    requires d.op.Send? && IsRequest(cfg, step, d.op.request)
    requires Possible(link, Execute(d.emitted, [Read(Frame())], d.late))
    ensures CallOf(StateAfter(port, run), d) == Execute(d.emitted, [Read(Frame())], d.late)
    ensures Stands(cfg, port, run + [d], Answered(cfg, step, FrameMessage()), rest, writes,
                   After(link, Execute(d.emitted, [Read(Frame())], d.late)))
  {
    assert FrameMessage().kind.Response?;
    hide *;
    ReplyReads();
    AnswerStep(cfg, port, run, step, Frame(), FrameMessage(), rest, writes, link, d);
  }

  /** A link with nothing owed, buffered or in flight. */
  function Idle(next: nat): Link {
    Link([], [], [], {}, next, false)
  }

  function Reply(id: nat): Emitted {
    Emitted(Frame(), Some(id))
  }

  lemma {:induction false} OneAnswer(e: Emitted, owed: set<nat>)
    requires e.answers.Some? && e.answers.value in owed
    ensures AnswersOwed(owed, [e]) && StillOwed(owed, [e]) == owed - {e.answers.value}
  {
    assert [e][1..] == [];
  }

  lemma {:induction false} OneChunk(chunk: Chunk)
    ensures DataOf([Read(chunk)]) == chunk && DataOf([]) == []
  {
    assert [Read(chunk)][1..] == [] && chunk + DataOf([]) == chunk;
  }

  lemma {:induction false} OneFrame(e: Emitted)
    ensures Raws([e]) == [e.raw] && Flatten(Raws([e])) == e.raw
  {
    assert [e][1..] == [] && [e.raw][1..] == [] && e.raw + Flatten([]) == e.raw;
  }

  lemma {:induction false} ReplyIsSorted(id: nat)
    ensures Reply(id).WellSorted()
    ensures Awaited([], [Read(Frame())]) == Answer(Ok(FrameMessage()), [], 1, [], [])
  {
    ReplyReads();
    ReplyAwaited([]);
    assert [Read(Frame())] + [] == [Read(Frame())];
  }

  /** A request on a link with nothing owed, and one answer emitted and read at once. */
  lemma {:induction false} PromptAnswer(e: Emitted, n: nat, chunk: Chunk, m: Message)
    requires e.WellSorted() && e.answers == Some(n) && e.raw == chunk
    requires Awaited([], [Read(chunk)]) == Answer(Ok(m), [], 1, [], [])
    ensures var call := Execute([e], [Read(chunk)], []);
            Possible(Idle(n), call) && After(Idle(n), call) == Idle(n + 1)
  {
    hide Awaited, Emitted.WellSorted, Flatten, DataOf;
    OneFrame(e);
    OneChunk(chunk);
    OneAnswer(e, {n});
    assert {} + {n} == {n} && {n} - {n} == {};
    assert chunk + [] == chunk && [] + chunk == chunk;
    assert [] + [e] == [e] && [e][1..] == [];
  }

  lemma {:induction false} PromptReply(n: nat)
    ensures var call := Execute([Reply(n)], [Read(Frame())], []);
            Possible(Idle(n), call) && After(Idle(n), call) == Idle(n + 1)
  {
    hide Awaited, Possible, After, Emitted.WellSorted;
    ReplyIsSorted(n);
    PromptAnswer(Reply(n), n, Frame(), FrameMessage());
  }

  /** The indication that ends the mode request. */
  lemma {:induction false} ModeSetStep(cfg: Config, port: Port, run: seq<Served>, rest: seq<Event>, writes: nat, n: nat)
    requires Stands(cfg, port, run, ModePending, [Read(ModeFrame())] + rest, writes, Idle(n))
    ensures Stands(cfg, port, run + [Served(Hear, [Emitted(ModeFrame(), None)], [])], Ready(Version), rest, writes, Idle(n))
  {
    var s, d := StateAfter(port, run), Served(Hear, [Emitted(ModeFrame(), None)], []);
    ModeSetCall(n);
    ModeSetReceived(rest);
    hide StateAfter, CallsOf, FrameRead, Received, LinkAfter, PossibleRun, Possible, After, PhaseOf;
    assert Used([Read(ModeFrame())] + rest, rest) == [Read(ModeFrame())];
    RunSnoc(port, run, d);
    PhaseSnoc(cfg, s.history, Heard(ModeMessage()));
  }

  /** A plain receive of one indication, emitted and read at once. */
  lemma {:induction false} PromptIndication(e: Emitted, n: nat, chunk: Chunk, m: Message)
    requires e.WellSorted() && e.answers.None? && e.raw == chunk
    requires FrameRead([], [Read(chunk)], false) == Reading(Ok(chunk), [], [])
    requires Received([], [Read(chunk)], false) == Receipt(Ok(m), [], [])
    ensures var call := Receive([e], [Read(chunk)], []); Possible(Idle(n), call) && After(Idle(n), call) == Idle(n)
  {
    hide FrameRead, Received, Emitted.WellSorted, Flatten, DataOf;
    OneFrame(e);
    OneChunk(chunk);
    assert [e][1..] == [] && [] + [e] == [e];
    assert AnswersOwed({}, [e]) && StillOwed({}, [e]) == {};
    assert chunk + [] == chunk && [] + chunk == chunk;
  }

  lemma {:induction false} ModeSetCall(n: nat)
    ensures var call := Receive([Emitted(ModeFrame(), None)], [Read(ModeFrame())], []);
            Possible(Idle(n), call) && After(Idle(n), call) == Idle(n)
  {
    ModeSetReads();
    ModeSetReceived([]);
    hide FrameRead, Received, Possible, After;
    assert [Read(ModeFrame())] + [] == [Read(ModeFrame())];
    PromptIndication(Emitted(ModeFrame(), None), n, ModeFrame(), ModeMessage());
  }

  // ---------------------------------------------------------------- the run

  /** The steps up to the mode request, in order. */
  function Opening(k: nat): Step {
    if k == 0 then Probe else if k <= 7 then Init(k - 1) else if k == 8 then FccQuery else SetMode
  }

  /** The requests of the steps of this run. */
  function RequestFor(cfg: Config, step: Step): Request {
    match step
    case Init(k) => Request(if k < 7 then INIT_COMMANDS[k] else 0, cfg.bodies.zero, Sync)
    case SetMode => Request(0x12f, cfg.bodies.modeSet, Sync)
    case Version => Request(0x07c, cfg.bodies.sysInfo, Sync)
    case ApnConfig => Request(0x1af, if cfg.bodies.apnConfig.Ok? then cfg.bodies.apnConfig.value else [], Async)
    case Attach => Request(0x05c, cfg.bodies.netAttach, Async)
    case _ => Request(0x18e, cfg.bodies.zero, Async)
  }

  function Prompted(cfg: Config, k: nat): Served {
    Served(Send(RequestFor(cfg, Opening(k))), [Reply(k)], [])
  }

  /** The first `n` requests, each answered at once. */
  function Prompts(cfg: Config, n: nat): seq<Served> {
    if n == 0 then [] else Prompts(cfg, n - 1) + [Prompted(cfg, n - 1)]
  }

  function Replies(n: nat): seq<Event> {
    if n == 0 then [] else [Read(Frame())] + Replies(n - 1)
  }

  /** A port that answers the opening, and then has `rest` to give and takes so many writes more. */
  function PortFor(rest: seq<Event>, writes: nat): Port {
    Port(Replies(10) + ([Read(ModeFrame())] + rest), Trues(10 + writes), [])
  }

  function PhaseAfterOpening(n: nat): Phase {
    if n < 10 then Ready(Opening(n)) else ModePending
  }

  lemma {:induction false} OpeningRequest(cfg: Config, k: nat)
    requires k < 10
    ensures IsRequest(cfg, Opening(k), RequestFor(cfg, Opening(k)))
  {
  }

  /** The reply of zeros moves every step of the opening on to the next. */
  lemma {:induction false} OpeningMoves(cfg: Config, k: nat)
    requires k < 10
    ensures Answered(cfg, Opening(k), FrameMessage()) == PhaseAfterOpening(k + 1)
  {
    hide Frame, Zeroes, Unpacked;
    ReplyUnpacks();
  }

  /** One more prompt reply is one more read at the front. */
  lemma {:induction false} OneMorePrompt(cfg: Config, rest: seq<Event>, n: nat)
    requires 0 < n <= 10
    ensures Prompts(cfg, n) == Prompts(cfg, n - 1) + [Prompted(cfg, n - 1)]
    ensures Replies(11 - n) + rest == [Read(Frame())] + (Replies(10 - n) + rest)
    ensures PhaseAfterOpening(n - 1) == Ready(Opening(n - 1))
    ensures Prompted(cfg, n - 1) == Served(Send(RequestFor(cfg, Opening(n - 1))), [Reply(n - 1)], [])
  {
    hide Frame, Opening, RequestFor;
    Associate([Read(Frame())], Replies(10 - n), rest);
  }

  lemma {:induction false} NothingYet(cfg: Config, rest: seq<Event>, writes: nat)
    ensures Stands(cfg, PortFor(rest, writes), Prompts(cfg, 0), PhaseAfterOpening(0),
                   Replies(10) + ([Read(ModeFrame())] + rest), 10 + writes, Idle(0))
  {
    hide Replies, ModeFrame;
  }

  lemma {:induction false} PromptsStand(cfg: Config, rest: seq<Event>, writes: nat, n: nat)
    requires n <= 10
    ensures Stands(cfg, PortFor(rest, writes), Prompts(cfg, n), PhaseAfterOpening(n),
                   Replies(10 - n) + ([Read(ModeFrame())] + rest), 10 - n + writes, Idle(n))
    decreases n
  {
    hide *;
    if n == 0 {
      NothingYet(cfg, rest, writes);
    } else {
      PromptsStand(cfg, rest, writes, n - 1);
      OneMorePrompt(cfg, [Read(ModeFrame())] + rest, n);
      PromptReply(n - 1);
      OpeningRequest(cfg, n - 1);
      OpeningMoves(cfg, n - 1);
      ReplyStep(cfg, PortFor(rest, writes), Prompts(cfg, n - 1), Opening(n - 1), Replies(10 - n) + ([Read(ModeFrame())] + rest),
                10 - n + writes, Idle(n - 1), Prompted(cfg, n - 1));
    }
  }

  function Confirmed(): Served {
    Served(Hear, [Emitted(ModeFrame(), None)], [])
  }

  /** The opening comes to the version query, whatever the port has to give then. */
  lemma {:induction false} UpToVersion(cfg: Config, rest: seq<Event>, writes: nat)
    ensures Stands(cfg, PortFor(rest, writes), Prompts(cfg, 10) + [Confirmed()], Ready(Version), rest, writes, Idle(10))
  {
    assert [] + ([Read(ModeFrame())] + rest) == [Read(ModeFrame())] + rest && Replies(0) == [];
    assert PhaseAfterOpening(10) == ModePending && Confirmed() == Served(Hear, [Emitted(ModeFrame(), None)], []);
    hide *;
    PromptsStand(cfg, rest, writes, 10);
    ModeSetStep(cfg, PortFor(rest, writes), Prompts(cfg, 10), rest, writes, 10);
  }
}
