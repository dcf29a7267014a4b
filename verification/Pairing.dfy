/**
 * The bring-up as a session: what the correlation of requests and responses means for the driver.
 * A run of the driver's operations, with what the firmware emits meanwhile, is a run of calls of
 * `Session`; on it every reply that moves a phase is the answer to that phase's request, up to a
 * failed version query, after which the driver goes on without reopening the port.
 */
module Pairing {
  import opened Wrappers
  import opened ByteSeqs
  import opened Codec
  import opened Errors
  import opened Framing
  import opened Messages
  import opened Transport
  import opened Session
  import opened Debts
  import opened Bringup

  /** An operation of the driver, what the firmware emits during it, and what of that comes late. */
  datatype Served = Served(op: Op, emitted: seq<Emitted>, late: seq<byte>)

  function OpsOf(run: seq<Served>): (ops: seq<Op>)
    ensures |ops| == |run|
  {
    seq(|run|, i requires 0 <= i < |run| => run[i].op)
  }

  /** The port after a run. */
  function StateAfter(port: Port, run: seq<Served>): State {
    Played(port, OpsOf(run))
  }

  /** An operation as a call of the session. */
  function CallOf(s: State, d: Served): Call {
    match d.op
    case Send(_) =>
      if WriteSucceeds(s.port)
      then Execute(d.emitted, Used(s.port.events, Awaited(s.inbuf, s.port.events).events), d.late)
      else Unsent
    case Hear => Receive(d.emitted, Used(s.port.events, Received(s.inbuf, s.port.events, false).events), d.late)
    case Reset => if OpenSucceeds(s.port) then Reopen else ReopenFails
  }

  /** A run as a run of calls. */
  function CallsOf(port: Port, run: seq<Served>): (calls: seq<Call>)
    ensures |calls| == |run|
  {
    if run == [] then []
    else
      var front := run[..|run| - 1];
      CallsOf(port, front) + [CallOf(StateAfter(port, front), run[|run| - 1])]
  }

  // ---------------------------------------------------------------- the two views agree

  lemma {:induction false} StateSnoc(port: Port, run: seq<Served>, k: nat)
    requires k < |run|
    ensures StateAfter(port, run[..k + 1]) == Done(StateAfter(port, run[..k]), run[k].op)
  {
    assert OpsOf(run[..k + 1]) == OpsOf(run[..k]) + [run[k].op];
    PlayedSnoc(port, OpsOf(run[..k]), run[k].op);
  }

  lemma {:induction false} CallsOfPrefix(port: Port, run: seq<Served>, k: nat)
    requires k <= |run|
    ensures CallsOf(port, run)[..k] == CallsOf(port, run[..k])
    ensures k < |run| ==> CallsOf(port, run)[k] == CallOf(StateAfter(port, run[..k]), run[k])
    decreases |run|
  {
    if k == |run| {
      assert run[..k] == run;
    } else {
      var front := run[..|run| - 1];
      CallsOfPrefix(port, front, k);
      assert front[..k] == run[..k];
      assert k < |front| ==> front[k] == run[k];
    }
  }

  /** What a call comes to on the events it consumes is what the operation comes to on the port. */
  lemma {:induction false} CallAgrees(s: State, d: Served, link: Link)
    requires link.inbuf == s.inbuf
    ensures After(link, CallOf(s, d)).inbuf == Done(s, d.op).inbuf
    ensures CallOf(s, d).Execute? ==>
              Awaited(link.inbuf, CallOf(s, d).events).message == Awaited(s.inbuf, s.port.events).message
    ensures CallOf(s, d).Receive? ==>
              Received(link.inbuf, CallOf(s, d).events, false).message
              == Received(s.inbuf, s.port.events, false).message
  {
    hide Awaited, Received, FrameRead;
    AwaitedLocal(s.inbuf, s.port.events);
    ReceivedLocal(s.inbuf, s.port.events, false);
  }

  lemma {:induction false} SameBuffer(port: Port, run: seq<Served>)
    ensures LinkAfter(CallsOf(port, run)).inbuf == StateAfter(port, run).inbuf
    decreases |run|
  {
    hide Done, After, CallOf;
    if run != [] {
      var n := |run| - 1;
      SameBuffer(port, run[..n]);
      StateSnoc(port, run, n);
      assert run[..n + 1] == run;
      CallsOfPrefix(port, run, n);
      CallAgrees(StateAfter(port, run[..n]), run[n], LinkAfter(CallsOf(port, run[..n])));
    }
  }

  // ---------------------------------------------------------------- the phases between operations

  /** What a request comes to on a port. */
  function ReplyOf(s: State): Result<Message, Error> {
    if WriteSucceeds(s.port) then Awaited(s.inbuf, s.port.events).message else Err(Io)
  }

  function SkippedOf(s: State): seq<Message> {
    if WriteSucceeds(s.port) then Awaited(s.inbuf, s.port.events).skipped else []
  }

  lemma {:induction false} SendHistory(s: State, request: Request)
    ensures Done(s, Send(request)).history
            == s.history + [Issued(request)] + Receipts(SkippedOf(s)) + [Outcome(ReplyOf(s))]
    ensures forall i :: 0 <= i < |SkippedOf(s)| ==> !SkippedOf(s)[i].kind.Response?
    ensures ReplyOf(s).Ok? ==> ReplyOf(s).value.kind.Response?
  {
    SkippedAreNotResponses(s.inbuf, s.port.events);
    var issued := s.history + [Issued(request)];
    assert issued + [] == issued;
  }

  /** The step whose request may be sent in a phase. */
  function Awaits(phase: Phase): Step {
    if phase.Ready? then phase.step else AttachAgain
  }

  /** A request the automaton lets through is that of the phase, which its reply or failure then moves. */
  lemma {:induction false} SendMoves(cfg: Config, s: State, request: Request)
    requires Follows(cfg, Done(s, Send(request)).history)
    ensures var phase := PhaseOf(cfg, s.history);
            && (phase.Ready? || phase.AttachPending?)
            && MayIssue(cfg, s.history, Awaits(phase), request)
            && PhaseOf(cfg, s.history + [Issued(request)] + Receipts(SkippedOf(s))) == Waiting(Awaits(phase))
            && PhaseOf(cfg, Done(s, Send(request)).history)
               == if ReplyOf(s).Ok? then Answered(cfg, Awaits(phase), ReplyOf(s).value)
                  else Failed(Awaits(phase), ReplyOf(s).error)
  {
    hide ReplyOf, SkippedOf, Done, Answered, Failed, IsRequest;
    var history, step := Done(s, Send(request)).history, Awaits(PhaseOf(cfg, s.history));
    SendHistory(s, request);
    PrefixFollows(cfg, history, |s.history| + 1);
    assert history[..|s.history| + 1] == s.history + [Issued(request)];
    PhaseSnoc(cfg, s.history, Issued(request));
    SkippedKeepPhase(cfg, s.history + [Issued(request)], SkippedOf(s));
    PhaseSnoc(cfg, s.history + [Issued(request)] + Receipts(SkippedOf(s)), Outcome(ReplyOf(s)));
  }

  /** A receive or a reopening adds a single act. */
  lemma {:induction false} OtherMoves(cfg: Config, s: State, op: Op)
    requires !op.Send?
    ensures var act := Done(s, op).history[|s.history|..];
            && |act| == 1 && Done(s, op).history == s.history + act
            && PhaseOf(cfg, Done(s, op).history) == Next(cfg, PhaseOf(cfg, s.history), AttachFlag(s.history), act[0])
            && !act[0].Issued?
            && (op.Hear? ==> act[0] == Outcome(Received(s.inbuf, s.port.events, false).message))
            && (op.Reset? ==> act[0] == if OpenSucceeds(s.port) then Reopened else Lost(Io))
  {
    hide Received, PhaseOf, AttachFlag, Next;
    var acts := Done(s, op).history[|s.history|..];
    assert Done(s, op).history == s.history + acts;
    PhaseSnoc(cfg, s.history, acts[0]);
  }

  lemma {:induction false} HistoryGrows(s: State, op: Op)
    ensures s.history < Done(s, op).history
  {
    hide Awaited, Received;
  }

  lemma {:induction false} HistoryPrefix(port: Port, run: seq<Served>, k: nat)
    requires k <= |run|
    ensures StateAfter(port, run[..k]).history <= StateAfter(port, run).history
    decreases |run| - k
  {
    hide StateAfter;
    if k == |run| {
      assert run[..k] == run;
    } else {
      StateSnoc(port, run, k);
      HistoryGrows(StateAfter(port, run[..k]), run[k].op);
      HistoryPrefix(port, run, k + 1);
    }
  }

  lemma {:induction false} FollowsBefore(cfg: Config, port: Port, run: seq<Served>, k: nat)
    requires k <= |run| && Follows(cfg, StateAfter(port, run).history)
    ensures Follows(cfg, StateAfter(port, run[..k]).history)
  {
    hide PhaseOf, StateAfter;
    var h, all := StateAfter(port, run[..k]).history, StateAfter(port, run).history;
    HistoryPrefix(port, run, k);
    PrefixFollows(cfg, all, |h|);
    assert all[..|h|] == h;
  }

  lemma {:induction false} OnlyRequestsWait(cfg: Config, phase: Phase, allowed: bool, act: Act)
    requires !act.Issued? && !phase.Waiting?
    ensures !Next(cfg, phase, allowed, act).Waiting?
  {
  }

  lemma {:induction false} ReplyEndsWait(cfg: Config, step: Step, r: Result<Message, Error>)
    ensures r.Ok? ==> !Answered(cfg, step, r.value).Waiting?
    ensures r.Err? ==> !Failed(step, r.error).Waiting?
  {
  }

  /** Between operations no request waits. */
  lemma {:induction false} NoneWaits(cfg: Config, port: Port, run: seq<Served>)
    requires Follows(cfg, StateAfter(port, run).history)
    ensures !PhaseOf(cfg, StateAfter(port, run).history).Waiting?
    decreases |run|
  {
    if run == [] {
      assert PhaseOf(cfg, []) == Ready(Probe);
    } else {
      hide *;
      var n := |run| - 1;
      var s := StateAfter(port, run[..n]);
      StateSnoc(port, run, n);
      assert run[..n + 1] == run;
      FollowsBefore(cfg, port, run, n);
      NoneWaits(cfg, port, run[..n]);
      if run[n].op.Send? {
        SendMoves(cfg, s, run[n].op.request);
        ReplyEndsWait(cfg, Awaits(PhaseOf(cfg, s.history)), ReplyOf(s));
      } else {
        OtherMoves(cfg, s, run[n].op);
        OnlyRequestsWait(cfg, PhaseOf(cfg, s.history), AttachFlag(s.history), Done(s, run[n].op).history[|s.history|]);
      }
    }
  }

  // ---------------------------------------------------------------- nothing is outstanding

  /** A version query was sent, and ended in an error. */
  ghost predicate VersionFailed(cfg: Config, history: seq<Act>) {
    exists i :: 0 <= i < |history| && VersionFailedAt(cfg, history, i)
  }

  ghost predicate VersionFailedAt(cfg: Config, history: seq<Act>, i: nat)
    requires i < |history|
  {
    history[i].Lost? && PhaseOf(cfg, history[..i]) == Waiting(Version)
  }

  lemma {:induction false} VersionStaysFailed(cfg: Config, history: seq<Act>, longer: seq<Act>)
    requires VersionFailed(cfg, history) && history <= longer
    ensures VersionFailed(cfg, longer)
  {
    var i :| 0 <= i < |history| && VersionFailedAt(cfg, history, i);
    assert longer[..i] == history[..i];
    assert VersionFailedAt(cfg, longer, i);
  }

  /** The phases in which the driver is done with the port as it is. */
  predicate GivenUp(phase: Phase) {
    phase.ProbeTimedOut? || phase.Stopped?
  }

  /** The run before an operation, and the operation as a call after it, are possible. */
  lemma {:induction false} PossibleBefore(port: Port, run: seq<Served>, k: nat)
    requires k <= |run| && PossibleRun(CallsOf(port, run))
    ensures PossibleRun(CallsOf(port, run[..k]))
    ensures k < |run| ==>
              Possible(LinkAfter(CallsOf(port, run[..k])), CallOf(StateAfter(port, run[..k]), run[k]))
  {
    hide Possible, CallOf, StateAfter, LinkAfter;
    CallsOfPrefix(port, run, k);
    PrefixPossible(CallsOf(port, run), k);
  }

  lemma {:induction false} OutstandingSnoc(port: Port, run: seq<Served>, n: nat)
    requires |run| == n + 1
    ensures var call := CallOf(StateAfter(port, run[..n]), run[n]);
            Outstanding(CallsOf(port, run))
            == if call.Reopen? then 0
               else Outstanding(CallsOf(port, run[..n])) + Change(LinkAfter(CallsOf(port, run[..n])).inbuf, call)
  {
    hide Change, CallOf, StateAfter, LinkAfter;
    CallsOfPrefix(port, run, n);
  }

  /** A request that fails leaves the driver done with the port, unless it is the version query. */
  lemma {:induction false} FailureGivesUp(cfg: Config, s: State, request: Request)
    requires Follows(cfg, Done(s, Send(request)).history) && ReplyOf(s).Err?
    ensures GivenUp(PhaseOf(cfg, Done(s, Send(request)).history)) || VersionFailed(cfg, Done(s, Send(request)).history)
  {
    hide PhaseOf, Done, ReplyOf, SkippedOf, MayIssue;
    var history := Done(s, Send(request)).history;
    var waited := s.history + [Issued(request)] + Receipts(SkippedOf(s));
    SendMoves(cfg, s, request);
    SendHistory(s, request);
    if Awaits(PhaseOf(cfg, s.history)).Version? {
      assert history[..|waited|] == waited;
      assert VersionFailedAt(cfg, history, |waited|);
    }
  }

  /** Other operations go on only from a phase that is not given up, but for the reopening. */
  lemma {:induction false} OtherGoesOn(cfg: Config, phase: Phase, allowed: bool, act: Act)
    requires !act.Issued? && !Next(cfg, phase, allowed, act).Astray? && !GivenUp(Next(cfg, phase, allowed, act))
    ensures act.Reopened? || !GivenUp(phase)
  {
  }

  /** Each operation keeps nothing outstanding as long as the driver goes on. */
  lemma {:induction false} NothingOutstandingStep(cfg: Config, port: Port, run: seq<Served>, n: nat)
    requires |run| == n + 1 && PossibleRun(CallsOf(port, run))
    requires Follows(cfg, StateAfter(port, run).history) && !VersionFailed(cfg, StateAfter(port, run).history)
    requires !GivenUp(PhaseOf(cfg, StateAfter(port, run).history))
    requires GivenUp(PhaseOf(cfg, StateAfter(port, run[..n]).history)) || Outstanding(CallsOf(port, run[..n])) == 0
    ensures Outstanding(CallsOf(port, run)) == 0
  {
    assert !PhaseOf(cfg, StateAfter(port, run).history).Astray?;
    hide *;
    var s, link := StateAfter(port, run[..n]), LinkAfter(CallsOf(port, run[..n]));
    StateSnoc(port, run, n);
    assert run[..n + 1] == run;
    PossibleBefore(port, run, n);
    OutstandingSnoc(port, run, n);
    SameBuffer(port, run[..n]);
    CallAgrees(s, run[n], link);
    if run[n].op.Send? {
      SendMoves(cfg, s, run[n].op.request);
      SendChange(link, s, run[n]);
      if ReplyOf(s).Err? {
        FailureGivesUp(cfg, s, run[n].op.request);
      }
      ReadyIsNotGivenUp(PhaseOf(cfg, s.history));
    } else {
      OtherMoves(cfg, s, run[n].op);
      var act := Done(s, run[n].op).history[|s.history|];
      OtherGoesOn(cfg, PhaseOf(cfg, s.history), AttachFlag(s.history), act);
      if !GivenUp(PhaseOf(cfg, s.history)) {
        OtherChange(CallsOf(port, run[..n]), s, run[n]);
      } else {
        ReopenedIsReopen(s, run[n], act);
      }
    }
  }

  lemma {:induction false} ReadyIsNotGivenUp(phase: Phase)
    requires phase.Ready? || phase.AttachPending?
    ensures !GivenUp(phase)
  {
  }

  /** A request that was answered changes nothing. */
  lemma {:induction false} SendChange(link: Link, s: State, d: Served)
    requires d.op.Send? && link.inbuf == s.inbuf
    ensures ReplyOf(s).Ok? ==> !CallOf(s, d).Reopen? && Change(link.inbuf, CallOf(s, d)) == 0
  {
    CallAgrees(s, d, link);
  }

  lemma {:induction false} ReopenedIsReopen(s: State, d: Served, act: Act)
    requires d.op.Hear? || d.op.Reset?
    requires act.Reopened?
    requires d.op.Hear? ==> act == Outcome(Received(s.inbuf, s.port.events, false).message)
    requires d.op.Reset? ==> act == if OpenSucceeds(s.port) then Reopened else Lost(Io)
    ensures CallOf(s, d).Reopen?
  {
  }

  /** With nothing outstanding a plain receive returns no response, and a failed reopening none either. */
  lemma {:induction false} OtherChange(calls: seq<Call>, s: State, d: Served)
    requires PossibleRun(calls) && Possible(LinkAfter(calls), CallOf(s, d)) && Outstanding(calls) == 0
    requires !d.op.Send?
    ensures CallOf(s, d).Reopen? || Change(LinkAfter(calls).inbuf, CallOf(s, d)) == 0
  {
    hide LinkAfter, Outstanding, PossibleRun, Possible, Received;
    NothingOutstandingIsCorrect(calls, CallOf(s, d));
  }

  /**
   * The driver is disciplined: between operations nothing is outstanding, unless it is done with the
   * port or went on after a failed version query.
   */
  lemma {:induction false} NothingOutstanding(cfg: Config, port: Port, run: seq<Served>)
    requires PossibleRun(CallsOf(port, run)) && Follows(cfg, StateAfter(port, run).history)
    requires !VersionFailed(cfg, StateAfter(port, run).history)
    ensures GivenUp(PhaseOf(cfg, StateAfter(port, run).history)) || Outstanding(CallsOf(port, run)) == 0
    decreases |run|
  {
    if run != [] {
      hide *;
      var n := |run| - 1;
      FollowsBefore(cfg, port, run, n);
      HistoryPrefix(port, run, n);
      PossibleBefore(port, run, n);
      if VersionFailed(cfg, StateAfter(port, run[..n]).history) {
        VersionStaysFailed(cfg, StateAfter(port, run[..n]).history, StateAfter(port, run).history);
      }
      NothingOutstanding(cfg, port, run[..n]);
      if !GivenUp(PhaseOf(cfg, StateAfter(port, run).history)) {
        NothingOutstandingStep(cfg, port, run, n);
      }
    }
  }

  // ---------------------------------------------------------------- replies and requests

  /** The reply to operation `k`, a request, is the message `m` of a frame that answers that request. */
  ghost predicate OwnReply(port: Port, run: seq<Served>, k: nat, m: Message)
    requires k < |run|
  {
    var link, call := LinkAfter(CallsOf(port, run[..k])), CallOf(StateAfter(port, run[..k]), run[k]);
    && call.Execute? && TakenFrame(link, call).Some?
    && TakenFrame(link, call).value.answers == Some(link.next)
    && ParsedMessage(TakenFrame(link, call).value.raw) == Ok(m)
  }

  /** With nothing outstanding before it, the reply to an operation is its own. */
  lemma {:induction false} ReplyIsOwn(port: Port, run: seq<Served>, k: nat)
    requires k < |run| && run[k].op.Send? && PossibleRun(CallsOf(port, run))
    requires ReplyOf(StateAfter(port, run[..k])).Ok? && Outstanding(CallsOf(port, run[..k])) == 0
    ensures OwnReply(port, run, k, ReplyOf(StateAfter(port, run[..k])).value)
  {
    hide StateAfter, LinkAfter, CallsOf, Awaited, Outstanding, Possible, PossibleRun, Consistent, Numbered, TakenFrame;
    var s, link := StateAfter(port, run[..k]), LinkAfter(CallsOf(port, run[..k]));
    PossibleBefore(port, run, k);
    SameBuffer(port, run[..k]);
    CallAgrees(s, run[k], link);
    NothingOutstandingIsCorrect(CallsOf(port, run[..k]), CallOf(s, run[k]));
    AnyRun(CallsOf(port, run[..k]));
    TakenFrameIsReturned(link, CallOf(s, run[k]));
  }

  /**
   * And exactly then, of a firmware whose answers can be read and come in order: after a failed
   * version query, too, a reply is its request's own if and only if nothing is outstanding.
   */
  lemma {:induction false} ReplyIsOwnIffNothingOutstanding(port: Port, run: seq<Served>, k: nat)
    requires k < |run| && run[k].op.Send? && PossibleRun(CallsOf(port, run))
    requires ReadableRun(CallsOf(port, run[..k])) && ReplyOf(StateAfter(port, run[..k])).Ok?
    requires var link := LinkAfter(CallsOf(port, run[..k])); OldestFirst(link.owed + {link.next}, run[k].emitted)
    ensures OwnReply(port, run, k, ReplyOf(StateAfter(port, run[..k])).value)
            <==> Outstanding(CallsOf(port, run[..k])) == 0
  {
    hide StateAfter, LinkAfter, CallsOf, Awaited, Outstanding, Possible, PossibleRun, ReadableRun, OldestFirst, TakenFrame;
    var s, link := StateAfter(port, run[..k]), LinkAfter(CallsOf(port, run[..k]));
    PossibleBefore(port, run, k);
    SameBuffer(port, run[..k]);
    CallAgrees(s, run[k], link);
    OwnResponseIffNothingOutstanding(CallsOf(port, run[..k]), CallOf(s, run[k]));
    if Outstanding(CallsOf(port, run[..k])) == 0 {
      ReplyIsOwn(port, run, k);
    }
  }

  /** The operation that put an act of the history on record. */
  lemma {:induction false} Recorded(port: Port, run: seq<Served>, i: nat) returns (k: nat)
    requires i < |StateAfter(port, run).history|
    ensures k < |run|
    ensures |StateAfter(port, run[..k]).history| <= i < |StateAfter(port, run[..k + 1]).history|
    decreases |run|
  {
    assert run != [] by {
      assert StateAfter(port, []).history == [];
    }
    hide StateAfter;
    var n := |run| - 1;
    assert run[..n + 1] == run;
    if |StateAfter(port, run[..n]).history| <= i {
      k := n;
    } else {
      k := Recorded(port, run[..n], i);
      assert run[..n][..k] == run[..k] && run[..n][..k + 1] == run[..k + 1];
    }
  }

  /** A response heard while a step waits is the last act of the operation that sent the request. */
  lemma {:induction false} ReplyEndsOperation(cfg: Config, s: State, op: Op, i: nat)
    requires Follows(cfg, Done(s, op).history) && !PhaseOf(cfg, s.history).Waiting?
    requires |s.history| <= i < |Done(s, op).history|
    requires var a := Done(s, op).history[i]; a.Heard? && a.message.kind.Response?
    requires PhaseOf(cfg, Done(s, op).history[..i]).Waiting?
    ensures op.Send? && ReplyOf(s) == Ok(Done(s, op).history[i].message)
    ensures IsRequest(cfg, PhaseOf(cfg, Done(s, op).history[..i]).step, op.request)
  {
    hide PhaseOf, ReplyOf, SkippedOf, Done, IsRequest, Next, Follows;
    var history := Done(s, op).history;
    if op.Send? {
      SendMoves(cfg, s, op.request);
      SendHistory(s, op.request);
      var waited := s.history + [Issued(op.request)] + Receipts(SkippedOf(s));
      assert history[..|waited|] == waited;
    } else {
      OtherMoves(cfg, s, op);
      assert false;
    }
  }

  /**
   * Correlation of the bring-up: on every run that follows the automaton, against any firmware that
   * answers each request at most once and not before it was made, and up to a failed version query,
   * a reply that moves a phase is the answer to that phase's own request.
   */
  lemma {:induction false} RepliesAnswerTheirPhase(cfg: Config, port: Port, run: seq<Served>, i: nat)
    requires PossibleRun(CallsOf(port, run)) && Follows(cfg, StateAfter(port, run).history)
    requires i < |StateAfter(port, run).history| && !VersionFailed(cfg, StateAfter(port, run).history[..i])
    requires var a := StateAfter(port, run).history[i]; a.Heard? && a.message.kind.Response?
    requires PhaseOf(cfg, StateAfter(port, run).history[..i]).Waiting?
    ensures exists k :: 0 <= k < |run| && run[k].op.Send?
                        && IsRequest(cfg, PhaseOf(cfg, StateAfter(port, run).history[..i]).step, run[k].op.request)
                        && OwnReply(port, run, k, StateAfter(port, run).history[i].message)
  {
    hide *;
    var k := Recorded(port, run, i);
    var all, h, h1 := StateAfter(port, run).history, StateAfter(port, run[..k]).history, StateAfter(port, run[..k + 1]).history;
    HistoryPrefix(port, run, k + 1);
    HistoryPrefix(port, run, k);
    StateSnoc(port, run, k);
    assert h1[..i] == all[..i] && h1[i] == all[i] && h <= all[..i];
    FollowsBefore(cfg, port, run, k);
    FollowsBefore(cfg, port, run, k + 1);
    NoneWaits(cfg, port, run[..k]);
    ReplyEndsOperation(cfg, StateAfter(port, run[..k]), run[k].op, i);
    if VersionFailed(cfg, h) {
      VersionStaysFailed(cfg, h, all[..i]);
    }
    PossibleBefore(port, run, k);
    NothingOutstanding(cfg, port, run[..k]);
    SendMoves(cfg, StateAfter(port, run[..k]), run[k].op.request);
    ReadyIsNotGivenUp(PhaseOf(cfg, h));
    ReplyIsOwn(port, run, k);
  }
}
