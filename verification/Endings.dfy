/**
 * How a bring-up ends.  The phase a history has come to and its last act decide the outcome of the
 * run: every error has its reason there, and a run without a reason to fail succeeds.
 */
module Endings {
  import opened Wrappers
  import opened ByteSeqs
  import opened Codec
  import opened Errors
  import opened Messages
  import opened Transport
  import opened Bringup
  import Requests

  // ---------------------------------------------------------------- reasons

  /** What there is to object to in a reply to be unpacked, with integers at two positions. */
  function UnpackObjection(fmt: string, body: seq<byte>, i: nat, j: nat): Option<Error> {
    match Unpacked(fmt, body)
    case Ok(values) =>
      if Requests.IntAt(values, i).None? then Some(Protocol(NotAnInteger(i)))
      else if Requests.IntAt(values, j).None? then Some(Protocol(NotAnInteger(j)))
      else None
    case Err(e) => Some(CodecFailure(e))
  }

  function ServersObjection(body: seq<byte>): Option<Error> {
    match Unpacked(Requests.DnsFormat(), body)
    case Ok(_) => None
    case Err(e) => Some(CodecFailure(e))
  }

  function ModeObjection(content: seq<Value>, wanted: u32, otherwise: Violation): Option<Error> {
    if !FirstInts(content, 1) then Some(Protocol(NotAnInteger(0)))
    else if content[0].value != wanted then Some(Protocol(otherwise))
    else None
  }

  /** What there is to object to in the reply to a step. */
  function Objection(step: Step, m: Message): Option<Error> {
    match step
    case FccQuery => UnpackObjection("nnn", m.body, 1, 2)
    case FccChallenge => UnpackObjection("nn", m.body, 1, 1)
    case FccVerify(_) =>
      if UnpackObjection("n", m.body, 0, 0).None? && !AcceptsAnswer(m) then Some(Error.FccUnlock)
      else UnpackObjection("n", m.body, 0, 0)
    case SetMode => ModeObjection(m.content, 0, ModeRejected)
    case Attach => UnpackObjection("nn", m.body, 1, 1)
    case AttachAgain => UnpackObjection("nn", m.body, 1, 1)
    case AskIp => if Requests.ParsedNegIp(m.body).Err? then Some(CodecFailure(Requests.ParsedNegIp(m.body).error)) else None
    case AskDns(_) => ServersObjection(m.body)
    case DataChannel(connect) => if |connect| < 6 then Some(Protocol(ShortConnectReply)) else None
    case _ => None
  }

  /** The reason of an error: a request or a receive that failed with it, or a reply it objects to. */
  ghost predicate Explained(before: Phase, last: Act, e: Error) {
    match last
    case Lost(lost) => e == lost
    case Heard(m) =>
      || (before.Waiting? && m.kind.Response? && Objection(before.step, m) == Some(e))
      || (before.ModePending? && m.code == 0x12d && ModeObjection(m.content, 1, ModeNotSet) == Some(e))
    case _ => false
  }

  /** The last act stopped the run, with its reason. */
  ghost predicate Halted(cfg: Config, history: seq<Act>, e: Error) {
    && history != [] && PhaseOf(cfg, history) == Stopped
    && Explained(PhaseOf(cfg, history[..|history| - 1]), history[|history| - 1], e)
  }

  /** A phase before the first request of the data channel. */
  predicate Early(phase: Phase) {
    && ((phase.Ready? || phase.Waiting?) ==> Rank(phase.step) < Rank(PsConnect))
    && !phase.Stopped? && !phase.Up? && !phase.Astray?
  }

  /** The last act stopped the run before the first request of the data channel. */
  ghost predicate HaltedEarly(cfg: Config, history: seq<Act>, e: Error) {
    Halted(cfg, history, e) && Early(PhaseOf(cfg, history[..|history| - 1]))
  }

  /**
   * The outcome a history calls for.  It is an error when the run was stopped, when a payload does not
   * encode or the network does not configure, each at its place, when the probe timed out for good,
   * when the attach was refused twice, and when the last poll found no address; it is success at the end.
   */
  ghost predicate EndsAs(cfg: Config, history: seq<Act>, configured: Result<(), Error>, r: Result<(), Error>) {
    match PhaseOf(cfg, history)
    case Up => r.Ok?
    case Stopped => r.Err? && Halted(cfg, history, r.error)
    case ProbeTimedOut => r == Err(Timeout)
    case Refused => r == Err(AttachRefused)
    case Ready(step) =>
      (match step
       case ApnConfig => cfg.bodies.apnConfig.Err? && r == Err(CodecFailure(cfg.bodies.apnConfig.error))
       case AskIp => r == Err(NoIp) && RepliedAt(cfg, history, |history| - 1, AskDns(false))
       case PsConnect => configured.Err? && r == configured
       case DataChannel(_) => cfg.bodies.path.Err? && r == Err(CodecFailure(cfg.bodies.path.error))
       case _ => false)
    case _ => false
  }

  /** The history leaves no choice of outcome. */
  lemma {:induction false} OutcomeIsDetermined(cfg: Config, history: seq<Act>, configured: Result<(), Error>,
                                               r: Result<(), Error>, q: Result<(), Error>)
    requires EndsAs(cfg, history, configured, r) && EndsAs(cfg, history, configured, q)
    ensures r.Ok? <==> q.Ok?
    ensures r.Err? ==> r == q
  {
    hide PhaseOf, Objection, ModeObjection;
  }

  // ---------------------------------------------------------------- before the data channel

  /** No request of the data channel was issued. */
  ghost predicate BeforeChannel(history: seq<Act>) {
    forall n :: 0 <= n < |RequestsOf(history)| ==> RequestsOf(history)[n].cmd !in DATA_CHANNEL_COMMANDS
  }

  lemma {:induction false} FittingIsLow(steps: seq<Step>, phase: Phase)
    requires Fitting(steps, phase) && (Early(phase) || phase == Ready(PsConnect))
    ensures steps != [] ==> Rank(steps[|steps| - 1]) < Rank(PsConnect)
  {
  }

  /** At an early phase, and when the data channel is about to be opened, none of it was. */
  lemma {:induction false} EarlyIsBeforeChannel(cfg: Config, history: seq<Act>)
    requires Early(PhaseOf(cfg, history)) || PhaseOf(cfg, history) == Ready(PsConnect)
    ensures BeforeChannel(history)
  {
    assert Follows(cfg, history);
    hide PhaseOf, StepsOf, RequestsOf, Early, InOrder, IsRequest, Fitting;
    var steps := StepsOf(cfg, history);
    RequestsInOrder(cfg, history);
    StepsAreLegitimate(cfg, history);
    FittingIsLow(steps, PhaseOf(cfg, history));
    LastRankBounds(steps, Rank(PsConnect));
    IssuedAreSteps(cfg, history);
    forall n | 0 <= n < |RequestsOf(history)| ensures RequestsOf(history)[n].cmd !in DATA_CHANNEL_COMMANDS {
      DataChannelSteps(cfg, steps[n], RequestsOf(history)[n]);
    }
  }

  lemma {:induction false} HaltedEarlyIsBeforeChannel(cfg: Config, history: seq<Act>, e: Error)
    requires HaltedEarly(cfg, history, e)
    ensures BeforeChannel(history)
  {
    hide PhaseOf, Early;
    var front := history[..|history| - 1];
    EarlyIsBeforeChannel(cfg, front);
    assert history == front + [history[|history| - 1]];
    HistorySnoc(front, history[|history| - 1]);
  }

  // ---------------------------------------------------------------- success

  /** The kinds a name-server reply starts with. */
  predicate HasServerSlots(vs: seq<Value>) {
    |vs| >= 39 && forall k :: 0 <= k < 39 ==> (vs[k].Bytes? <==> (k < 33 && k % 2 == 1) || k == 34)
  }

  /** A message that leads on: where a reply is looked at, its values are such that the run goes on. */
  predicate LeadsOn(phase: Phase, m: Message) {
    var vs := m.content;
    if phase.ModePending? then m.code == 0x12d ==> FirstInts(vs, 1) && vs[0].value == 1
    else if !phase.Waiting? || !m.kind.Response? then true
    else
      match phase.step
      case FccQuery => FirstInts(vs, 3)
      case FccChallenge => FirstInts(vs, 2)
      case FccVerify(_) => FirstInts(vs, 1) && vs[0].value == 1
      case SetMode => FirstInts(vs, 1) && vs[0].value == 0
      case Attach => FirstInts(vs, 2)
      case AttachAgain => FirstInts(vs, 2) && vs[1].value != 0xffff_ffff
      case AskIp => HasCandidates(vs)
      case AskDns(found) => found && HasServerSlots(vs)
      case DataChannel(connect) => |connect| >= 6
      case _ => true
  }

  lemma {:induction false} LeadingMeetsNoObjection(phase: Phase, m: Message)
    requires Genuine(m) && phase.Waiting? && m.kind.Response? && LeadsOn(phase, m)
    ensures Objection(phase.step, m).None?
  {
    hide Decoded, Unpacked;
    UnpackedInts("nnn", m);
    UnpackedInts("nn", m);
    UnpackedInts("n", m);
    Requests.NegIpOfDecoded(m.body);
    Requests.DnsOfDecoded(m.body);
  }

  /** A second refusal comes from a reply that does not lead on. */
  lemma {:induction false} RefusalDoesNotLead(cfg: Config, history: seq<Act>)
    requires AllGenuine(history) && PhaseOf(cfg, history).Refused?
    ensures history != []
    ensures var n := |history| - 1;
            history[n].Heard? && !LeadsOn(PhaseOf(cfg, history[..n]), history[n].message)
  {
    hide Genuine, Unpacked, FirstInts;
    var n := |history| - 1;
    if history[n].Heard? {
      RefusedStep(cfg, PhaseOf(cfg, history[..n]), AttachFlag(history[..n]), history[n].message);
    }
  }

  lemma {:induction false} RefusedStep(cfg: Config, before: Phase, allowed: bool, m: Message)
    requires Genuine(m) && Next(cfg, before, allowed, Heard(m)).Refused?
    ensures !LeadsOn(before, m)
  {
    hide Genuine, Unpacked;
    AttachDecision(cfg, m);
  }

  /**
   * A run that leads on reaches the end: when every reply leads on, nothing is lost but perhaps the
   * version, both payloads encode and the network configures, the outcome is success.
   */
  lemma {:induction false} LeadingRunSucceeds(cfg: Config, history: seq<Act>, configured: Result<(), Error>, r: Result<(), Error>)
    requires AllGenuine(history) && EndsAs(cfg, history, configured, r)
    requires cfg.bodies.apnConfig.Ok? && cfg.bodies.path.Ok? && configured.Ok?
    requires forall i :: 0 <= i < |history| && history[i].Lost? ==> PhaseOf(cfg, history[..i]) == Waiting(Version)
    requires forall i :: 0 <= i < |history| && history[i].Heard? ==> LeadsOn(PhaseOf(cfg, history[..i]), history[i].message)
    ensures r.Ok? && PhaseOf(cfg, history) == Up
  {
    hide Genuine, Objection, ModeObjection, LeadsOn;
    var n := |history| - 1;
    match PhaseOf(cfg, history)
    case Refused => RefusalDoesNotLead(cfg, history);
    case Stopped => StopDoesNotLead(cfg, history, r.error);
    case ProbeTimedOut => TimedOutIsLost(cfg, history);
    case Ready(step) =>
      if step.AskIp? {
        EmptyPollDoesNotLead(PhaseOf(cfg, history[..n]), history[n].message);
      }
    case _ =>
  }

  lemma {:induction false} TimedOutIsLost(cfg: Config, history: seq<Act>)
    requires PhaseOf(cfg, history).ProbeTimedOut?
    ensures history != [] && history[|history| - 1].Lost? && PhaseOf(cfg, history[..|history| - 1]) == Waiting(Probe)
  {
  }

  lemma {:induction false} EmptyPollDoesNotLead(before: Phase, m: Message)
    requires before == Waiting(AskDns(false)) && m.kind.Response?
    ensures !LeadsOn(before, m)
  {
  }

  lemma {:induction false} StopDoesNotLead(cfg: Config, history: seq<Act>, e: Error)
    requires AllGenuine(history) && Halted(cfg, history, e)
    ensures var n := |history| - 1;
            || (history[n].Lost? && PhaseOf(cfg, history[..n]) != Waiting(Version))
            || (history[n].Heard? && !LeadsOn(PhaseOf(cfg, history[..n]), history[n].message))
  {
    hide Genuine, Objection, LeadsOn;
    var n := |history| - 1;
    var before := PhaseOf(cfg, history[..n]);
    if history[n].Heard? {
      var m := history[n].message;
      if before.Waiting? && m.kind.Response? && LeadsOn(before, m) {
        LeadingMeetsNoObjection(before, m);
      } else if before.ModePending? && m.code == 0x12d && LeadsOn(before, m) {
        ModeIsSet(before, m);
      }
    }
  }

  lemma {:induction false} ModeIsSet(before: Phase, m: Message)
    requires before.ModePending? && m.code == 0x12d && LeadsOn(before, m)
    ensures ModeObjection(m.content, 1, ModeNotSet).None?
  {
  }
}
