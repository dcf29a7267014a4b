/**
 * Why the version query is the exception: a bring-up, followed request by request from the probe on,
 * in which the version query times out and the driver goes on.  Every later reply then belongs to
 * the request before, and the reply that grants the attach is the one to the APN configuration.
 */
module Shifted {
  import opened Wrappers
  import opened ByteSeqs
  import opened Codec
  import opened DecodingLaws
  import opened Errors
  import opened Framing
  import opened Messages
  import opened Transport
  import opened Session
  import opened Bringup
  import opened Pairing
  import opened Runs

  /** A deadline that passes before anything comes. */
  lemma {:induction false} QuietAwaited(rest: seq<Event>)
    ensures Awaited([], [Quiet] + rest) == Answer(Err(Timeout), [], 0, [], rest)
  {
    assert ([Quiet] + rest)[1..] == rest;
  }

  /** Two answers come while one is waited for: the first is taken, the second stays in flight. */
  lemma {:induction false} FirstOfTwo(e0: Emitted, e1: Emitted, n: nat, chunk: Chunk, m: Message)
    requires e0.WellSorted() && e1.WellSorted() && e0.answers == Some(n) && e1.answers == Some(n + 1) && e0.raw == chunk
    requires Awaited([], [Read(chunk)]) == Answer(Ok(m), [], 1, [], [])
    ensures var link, call := Link([], [], [], {n}, n + 1, true), Execute([e0, e1], [Read(chunk)], e1.raw);
            && Possible(link, call) && After(link, call) == Link([], e1.raw, [e1], {}, n + 2, false)
            && TakenAnswer(link, call) == Some(n)
  {
    hide Awaited, Emitted.WellSorted, Flatten, DataOf;
    var es := [e0, e1];
    OneFrame(e0);
    OneFrame(e1);
    OneChunk(chunk);
    FlattenConcat(Raws([e0]), Raws([e1]));
    RawsConcat([e0], [e1]);
    OneAnswer(e1, {n + 1});
    assert es == [e0] + [e1] && es[1..] == [e1] && [] + es == es;
    assert {n} + {n + 1} == {n, n + 1} && {n, n + 1} - {n} == {n + 1} && {n + 1} - {n + 1} == {};
    assert [] + (chunk + e1.raw) == chunk + e1.raw;
    assert [] + e1.raw == e1.raw;
  }

  /** The two answers that come once the query for the version has timed out. */
  lemma {:induction false} LateReply()
    ensures var link, call := Link([], [], [], {10}, 11, true), Execute([Reply(10), Reply(11)], [Read(Frame())], Frame());
            && Possible(link, call) && After(link, call) == Link([], Frame(), [Reply(11)], {}, 12, false)
            && TakenAnswer(link, call) == Some(10)
  {
    hide Awaited, Possible, After, TakenAnswer, Emitted.WellSorted;
    ReplyIsSorted(10);
    ReplyIsSorted(11);
    FirstOfTwo(Reply(10), Reply(11), 10, Frame(), FrameMessage());
  }

  /** The answer in flight is taken before the firmware answers the new request. */
  lemma {:induction false} AnswerInFlight(e: Emitted, n: nat, chunk: Chunk, m: Message)
    requires e.answers.Some? && e.raw == chunk && Awaited([], [Read(chunk)]) == Answer(Ok(m), [], 1, [], [])
    ensures var link, call := Link([], chunk, [e], {}, n, false), Execute([], [Read(chunk)], []);
            && Possible(link, call) && After(link, call) == Link([], [], [], {n}, n + 1, false)
            && TakenAnswer(link, call) == e.answers
  {
    hide Awaited, DataOf;
    OneChunk(chunk);
    assert [e] + [] == [e] && [e][1..] == [];
    assert chunk + [] == chunk && Flatten(Raws([])) == [];
    assert {} + {n} == {n};
  }

  /** The answer to the APN configuration, taken for that to the attach. */
  lemma {:induction false} StaleReply()
    ensures var link, call := Link([], Frame(), [Reply(11)], {}, 12, false), Execute([], [Read(Frame())], []);
            && Possible(link, call) && After(link, call) == Link([], [], [], {12}, 13, false)
            && TakenAnswer(link, call) == Some(11)
  {
    hide Awaited, Possible, After, TakenAnswer, Emitted.WellSorted;
    ReplyIsSorted(11);
    AnswerInFlight(Reply(11), 12, Frame(), FrameMessage());
  }

  /** The version query that times out, and after which the run goes on. */
  lemma {:induction false} VersionStep(cfg: Config, port: Port, run: seq<Served>, rest: seq<Event>, writes: nat, n: nat, d: Served)
    requires Stands(cfg, port, run, Ready(Version), [Quiet] + rest, writes + 1, Idle(n))
    requires d.op.Send? && d.emitted == [] && d.late == [] && IsRequest(cfg, Version, d.op.request)
    ensures Stands(cfg, port, run + [d], Ready(ApnConfig), rest, writes, Link([], [], [], {n}, n + 1, true))
    ensures VersionFailed(cfg, StateAfter(port, run + [d]).history)
  {
    var s, call := StateAfter(port, run), Execute([], [Quiet], []);
    QuietCall(n);
    QuietAwaited(rest);
    hide StateAfter, CallsOf, Awaited, LinkAfter, PossibleRun, Possible, After, PhaseOf, IsRequest;
    assert Tail(Trues(writes + 1)) == Trues(writes);
    assert Used([Quiet] + rest, rest) == [Quiet];
    RunSnoc(port, run, d);
    var issued := s.history + [Issued(d.op.request)];
    assert issued + [] == issued;
    PhaseAfterExchange(cfg, s.history, Version, d.op.request, [], Err(Timeout));
    PhaseSnoc(cfg, s.history, Issued(d.op.request));
    assert (issued + [Lost(Timeout)])[..|issued|] == issued;
    assert VersionFailedAt(cfg, issued + [Lost(Timeout)], |issued|);
  }

  lemma {:induction false} QuietCall(n: nat)
    ensures var call := Execute([], [Quiet], []);
            Possible(Idle(n), call) && After(Idle(n), call) == Link([], [], [], {n}, n + 1, true)
  {
    QuietAwaited([]);
    hide Awaited;
    assert [Quiet] + [] == [Quiet] && [Quiet][1..] == [];
    assert DataOf([Quiet]) == [] && Flatten(Raws([])) == [];
    assert {} + {n} == {n};
    assert Drop([] + [], 0) == [];
  }

  function Unanswered(cfg: Config): Served {
    Served(Send(RequestFor(cfg, Version)), [], [])
  }

  function AnsweredLate(cfg: Config): Served {
    Served(Send(RequestFor(cfg, ApnConfig)), [Reply(10), Reply(11)], Frame())
  }

  function Attached(cfg: Config): Served {
    Served(Send(RequestFor(cfg, Attach)), [], [])
  }

  /** After the opening, silence for the version query, and then two replies. */
  function GivenPort(): Port {
    PortFor([Quiet] + ([Read(Frame())] + ([Read(Frame())] + [])), 3)
  }

  /** The run up to the attach. */
  function BeforeAttach(cfg: Config): seq<Served> {
    Prompts(cfg, 10) + [Confirmed()] + [Unanswered(cfg)] + [AnsweredLate(cfg)]
  }

  lemma {:induction false} UpToApnConfig(cfg: Config)
    ensures var run := Prompts(cfg, 10) + [Confirmed()] + [Unanswered(cfg)];
            && Stands(cfg, GivenPort(), run, Ready(ApnConfig), [Read(Frame())] + ([Read(Frame())] + []), 2,
                      Link([], [], [], {10}, 11, true))
            && VersionFailed(cfg, StateAfter(GivenPort(), run).history)
  {
    var late := [Read(Frame())] + ([Read(Frame())] + []);
    assert GivenPort() == PortFor([Quiet] + late, 3);
    hide *;
    UpToVersion(cfg, [Quiet] + late, 3);
    VersionIsAsked(cfg);
    VersionStep(cfg, GivenPort(), Prompts(cfg, 10) + [Confirmed()], late, 2, 10, Unanswered(cfg));
  }

  lemma {:induction false} VersionIsAsked(cfg: Config)
    ensures var d := Unanswered(cfg);
            d.op.Send? && d.emitted == [] && d.late == [] && IsRequest(cfg, Version, d.op.request)
  {
  }

  /** A failed version query stays in the history. */
  lemma {:induction false} FailureStays(cfg: Config, port: Port, run: seq<Served>, d: Served)
    requires VersionFailed(cfg, StateAfter(port, run).history)
    ensures VersionFailed(cfg, StateAfter(port, run + [d]).history)
  {
    hide VersionFailed, StateAfter, Done;
    RunSnoc(port, run, d);
    HistoryGrows(StateAfter(port, run), d.op);
    VersionStaysFailed(cfg, StateAfter(port, run).history, StateAfter(port, run + [d]).history);
  }

  lemma {:induction false} ApnConfigIsSent(cfg: Config)
    requires cfg.bodies.apnConfig.Ok?
    ensures Answered(cfg, ApnConfig, FrameMessage()) == Ready(Attach)
    ensures var d := AnsweredLate(cfg);
            d.op.Send? && d.emitted == [Reply(10), Reply(11)] && d.late == Frame() && IsRequest(cfg, ApnConfig, d.op.request)
  {
    hide Frame;
  }

  lemma {:induction false} LateStep(cfg: Config, port: Port, run: seq<Served>, rest: seq<Event>)
    requires cfg.bodies.apnConfig.Ok?
    requires Stands(cfg, port, run, Ready(ApnConfig), [Read(Frame())] + rest, 2, Link([], [], [], {10}, 11, true))
    ensures Stands(cfg, port, run + [AnsweredLate(cfg)], Ready(Attach), rest, 1, Link([], Frame(), [Reply(11)], {}, 12, false))
  {
    hide *;
    ApnConfigIsSent(cfg);
    LateReply();
    ReplyStep(cfg, port, run, ApnConfig, rest, 1, Link([], [], [], {10}, 11, true), AnsweredLate(cfg));
  }

  lemma {:induction false} UpToAttach(cfg: Config)
    requires cfg.bodies.apnConfig.Ok?
    ensures Stands(cfg, GivenPort(), BeforeAttach(cfg), Ready(Attach), [Read(Frame())] + [], 1,
                   Link([], Frame(), [Reply(11)], {}, 12, false))
    ensures VersionFailed(cfg, StateAfter(GivenPort(), BeforeAttach(cfg)).history)
  {
    LateReply();
    var run := Prompts(cfg, 10) + [Confirmed()] + [Unanswered(cfg)];
    assert BeforeAttach(cfg) == run + [AnsweredLate(cfg)];
    hide *;
    UpToApnConfig(cfg);
    LateStep(cfg, GivenPort(), run, [Read(Frame())] + []);
    FailureStays(cfg, GivenPort(), run, AnsweredLate(cfg));
  }

  lemma {:induction false} StaleStep(cfg: Config, port: Port, run: seq<Served>, rest: seq<Event>, d: Served)
    requires Stands(cfg, port, run, Ready(Attach), [Read(Frame())] + rest, 1, Link([], Frame(), [Reply(11)], {}, 12, false))
    requires d.op.Send? && d.emitted == [] && d.late == [] && IsRequest(cfg, Attach, d.op.request)
    ensures Stands(cfg, port, run + [d], Ready(AskIp), rest, 0, Link([], [], [], {12}, 13, false))
    ensures CallOf(StateAfter(port, run), d) == Execute([], [Read(Frame())], [])
  {
    hide *;
    AttachIsGranted(cfg);
    StaleReply();
    ReplyStep(cfg, port, run, Attach, rest, 0, Link([], Frame(), [Reply(11)], {}, 12, false), d);
  }

  /**
   * The witness, for any configuration whose APN fits: a possible run of the driver in which, after a
   * failed version query, an attach is taken as granted although the firmware has not answered it;
   * the reply is the answer to request 11, the APN configuration, and the attach is request 12.
   */
  lemma {:induction false} AttachGrantedByAnotherReply(cfg: Config)
    requires cfg.bodies.apnConfig.Ok?
    ensures var port, before, run := GivenPort(), BeforeAttach(cfg), BeforeAttach(cfg) + [Attached(cfg)];
            var link, call := LinkAfter(CallsOf(port, before)), CallOf(StateAfter(port, before), Attached(cfg));
            && PossibleRun(CallsOf(port, run))
            && PhaseOf(cfg, StateAfter(port, before).history) == Ready(Attach)
            && PhaseOf(cfg, StateAfter(port, run).history) == Ready(AskIp)
            && AttachGranted(cfg, StateAfter(port, run).history)
            && VersionFailed(cfg, StateAfter(port, run).history)
            && call.Execute? && TakenAnswer(link, call) == Some(11) && link.next == 12
            && 12 in LinkAfter(CallsOf(port, run)).owed
  {
    var port, before, run := GivenPort(), BeforeAttach(cfg), BeforeAttach(cfg) + [Attached(cfg)];
    hide Frame, Attached, IsRequest, Answered, GivenPort, BeforeAttach, VersionFailed, Possible, After, TakenAnswer, CallOf, AttachGranted;
    UpToAttach(cfg);
    AttachIsGranted(cfg);
    StaleStep(cfg, port, before, [], Attached(cfg));
    StaleReply();
    FailureStays(cfg, port, before, Attached(cfg));
    DataChannelIsGuarded(cfg, StateAfter(port, run).history);
  }

  lemma {:induction false} AttachIsGranted(cfg: Config)
    ensures Answered(cfg, Attach, FrameMessage()) == Ready(AskIp)
    ensures var d := Attached(cfg);
            d.op.Send? && d.emitted == [] && d.late == [] && IsRequest(cfg, Attach, d.op.request)
  {
    hide Frame, Zeroes, Unpacked;
    ReplyUnpacks();
  }
}
