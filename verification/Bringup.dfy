/**
 * The order of the bring-up, as an automaton over the history of the port: which request may be
 * issued when, and what each reply makes of it.  `Modem` proves that the driver follows it; the
 * lemmas here say what every history that follows it has in common.
 */
module Bringup {
  import opened Wrappers
  import opened ByteSeqs
  import opened Codec
  import opened DecodingLaws
  import opened Errors
  import opened Messages
  import opened Transport
  import Requests
  import Apn

  const INIT_COMMANDS: seq<u32> := [0x030, 0x025, 0x053, 0x024, 0x03a, 0x026, 0x001]

  /** The status with which the network refuses an attach. */
  const REFUSED: u32 := 0xffff_ffff

  /** The request payloads of a run that no reply has a part in; two of them may fail to encode. */
  datatype Bodies = Bodies(zero: seq<byte>, modeSet: seq<byte>, sysInfo: seq<byte>, netAttach: seq<byte>,
                           negIp: seq<byte>, negDns: seq<byte>, psConnect: seq<byte>,
                           apnConfig: Result<seq<byte>, CodecError>, path: Result<seq<byte>, CodecError>)

  /** The payloads of a run; `unlock` turns an FCC challenge into its answer. */
  datatype Config = Config(bodies: Bodies, unlock: u32 -> u32) {
    function Answer(challenge: u32): u32 {
      unlock(challenge)
    }
  }

  /** The payloads for an APN and a data-channel path. */
  function BodiesFor(apn: seq<byte>, path: seq<byte>): Bodies {
    Bodies(AsnInt(0), Requests.ModeSet(1), Requests.SysGetInfo(0), Requests.NetAttach(), Requests.GetNegIp(),
           Requests.GetNegDns(), Requests.PsConnect(), Apn.AttachConfig(apn), Packed("s24", [BytesArg(path + [0])]))
  }

  /** The requests of a bring-up. */
  datatype Step =
    | Probe
    | Init(k: nat)
    | FccQuery
    | FccChallenge
    | FccVerify(answer: u32)
    | SetMode
    | Version
    | ApnConfig
    | Attach
    | AttachAgain
    | AskIp
    | AskDns(found: bool)
    | PsConnect
    | DataChannel(connect: seq<byte>)
    | Setup(payload: seq<byte>)

  datatype Phase =
    | Ready(step: Step)
    | Waiting(step: Step)
    | ProbeTimedOut
    | ModePending
    | AttachPending
    | Refused
    | Up
    | Stopped
    | Astray

  /** The request of a step. */
  predicate IsRequest(cfg: Config, step: Step, r: Request) {
    match step
    case Probe => r == Request(0x18e, cfg.bodies.zero, Async)
    case Init(k) => k < 7 && r == Request(INIT_COMMANDS[k], cfg.bodies.zero, Sync)
    case FccQuery => r == Request(0x18e, cfg.bodies.zero, Async)
    case FccChallenge => r == Request(0x190, cfg.bodies.zero, Async)
    case FccVerify(answer) => r == Request(0x192, AsnInt(answer), Async)
    case SetMode => r == Request(0x12f, cfg.bodies.modeSet, Sync)
    case Version => r == Request(0x07c, cfg.bodies.sysInfo, Sync)
    case ApnConfig => cfg.bodies.apnConfig == Ok(r.body) && r == Request(0x1af, r.body, Async)
    case Attach => r == Request(0x05c, cfg.bodies.netAttach, Async)
    case AttachAgain => r == Request(0x05c, cfg.bodies.netAttach, Async)
    case AskIp => r == Request(0x049, cfg.bodies.negIp, Async)
    case AskDns(_) => r == Request(0x047, cfg.bodies.negDns, Async)
    case PsConnect => r == Request(0x051, cfg.bodies.psConnect, Async)
    case DataChannel(_) => cfg.bodies.path == Ok(r.body) && r == Request(0x07e, r.body, Sync)
    case Setup(payload) => r == Request(0x07d, payload, Sync)
  }

  /** The integer an unpack finds at a position. */
  function UnpackedInt(fmt: string, body: seq<byte>, i: nat): Option<u32> {
    match Unpacked(fmt, body)
    case Ok(values) => Requests.IntAt(values, i)
    case Err(_) => None
  }

  /** Some candidate address is assigned. */
  predicate HasAddress(addresses: seq<Requests.Ipv4>) {
    exists i :: 0 <= i < |addresses| && addresses[i] != Requests.UNSPECIFIED
  }

  /** A reply to the lock query of a radio that needs no unlocking. */
  predicate ReportsUnlocked(m: Message) {
    var state, mode := UnpackedInt("nnn", m.body, 1), UnpackedInt("nnn", m.body, 2);
    state.Some? && mode.Some? && (mode.value == 0 || state.value != 0)
  }

  /** A reply that accepts the answer to an FCC challenge. */
  predicate AcceptsAnswer(m: Message) {
    UnpackedInt("n", m.body, 0) == Some(1)
  }

  /** A reply to an attach request that is not a refusal. */
  predicate GrantsAttach(m: Message) {
    UnpackedInt("nn", m.body, 1).Some? && UnpackedInt("nn", m.body, 1).value != REFUSED
  }

  predicate RefusesAttach(m: Message) {
    UnpackedInt("nn", m.body, 1) == Some(REFUSED)
  }

  /** A reply to an address query with an address in it. */
  predicate CarriesAddress(m: Message) {
    Requests.ParsedNegIp(m.body).Ok? && HasAddress(Requests.ParsedNegIp(m.body).value)
  }

  /** The setup payload: the connect reply less its last field, the data-channel reply, a zero. */
  function Splice(connect: seq<byte>, reply: seq<byte>): seq<byte>
    requires |connect| >= 6
  {
    connect[..|connect| - 6] + reply + AsnInt(0)
  }

  /** The phase after the response to a step. */
  function Answered(cfg: Config, step: Step, m: Message): Phase {
    match step
    case Probe => Ready(Init(0))
    case Init(k) => if k < 6 then Ready(Init(k + 1)) else Ready(FccQuery)
    case FccQuery =>
      var state, mode := UnpackedInt("nnn", m.body, 1), UnpackedInt("nnn", m.body, 2);
      if state.None? || mode.None? then Stopped
      else if ReportsUnlocked(m) then Ready(SetMode)
      else Ready(FccChallenge)
    case FccChallenge =>
      var challenge := UnpackedInt("nn", m.body, 1);
      if challenge.None? then Stopped else Ready(FccVerify(cfg.Answer(challenge.value)))
    case FccVerify(_) => if AcceptsAnswer(m) then Ready(SetMode) else Stopped
    case SetMode => if Requests.IntAt(m.content, 0) == Some(0) then ModePending else Stopped
    case Version => Ready(ApnConfig)
    case ApnConfig => Ready(Attach)
    case Attach => if GrantsAttach(m) then Ready(AskIp) else if RefusesAttach(m) then AttachPending else Stopped
    case AttachAgain => if GrantsAttach(m) then Ready(AskIp) else if RefusesAttach(m) then Refused else Stopped
    case AskIp => if Requests.ParsedNegIp(m.body).Ok? then Ready(AskDns(CarriesAddress(m))) else Stopped
    case AskDns(found) =>
      if Unpacked(Requests.DnsFormat(), m.body).Err? then Stopped
      else if found then Ready(PsConnect) else Ready(AskIp)
    case PsConnect => Ready(DataChannel(m.body))
    case DataChannel(connect) => if |connect| < 6 then Stopped else Ready(Setup(Splice(connect, m.body)))
    case Setup(_) => Up
  }

  /** The phase after a step got no response; a version query may fail. */
  function Failed(step: Step, e: Error): Phase {
    if step.Probe? && e.Timeout? then ProbeTimedOut
    else if step.Version? then Ready(ApnConfig)
    else Stopped
  }

  /** The phase after an act, given the attach flag before it. */
  function Next(cfg: Config, phase: Phase, allowed: bool, act: Act): Phase {
    match act
    case Issued(r) =>
      if phase.Ready? && IsRequest(cfg, phase.step, r) then Waiting(phase.step)
      else if phase.AttachPending? && allowed && IsRequest(cfg, AttachAgain, r) then Waiting(AttachAgain)
      else Astray
    case Heard(m) =>
      if phase.Waiting? then (if m.kind.Response? then Answered(cfg, phase.step, m) else phase)
      else if phase.ModePending? then
        (if m.code != UTA_MODE_SET_RSP_CB then ModePending
         else if Requests.IntAt(m.content, 0) == Some(1) then Ready(Version)
         else Stopped)
      else if phase.AttachPending? && !allowed then AttachPending
      else Astray
    case Lost(e) =>
      if phase.Waiting? then Failed(phase.step, e)
      else if phase.ModePending? || phase.AttachPending? || phase.ProbeTimedOut? then Stopped
      else Astray
    case Reopened => if phase.ProbeTimedOut? then Ready(Probe) else Astray
  }

  /** The phase a history has led to. */
  function PhaseOf(cfg: Config, history: seq<Act>): Phase {
    if history == [] then Ready(Probe)
    else
      var front := history[..|history| - 1];
      Next(cfg, PhaseOf(cfg, front), AttachFlag(front), history[|history| - 1])
  }

  // ---------------------------------------------------------------- decisions, value by value

  /** At least `n` values, the first `n` of them integers. */
  predicate FirstInts(vs: seq<Value>, n: nat) {
    n <= |vs| && forall k :: 0 <= k < n ==> vs[k].Int?
  }

  lemma {:induction false} UnpackedInts(fmt: string, m: Message)
    requires Genuine(m) && forall k :: 0 <= k < |fmt| ==> fmt[k] == 'n'
    ensures Unpacked(fmt, m.body).Ok? <==> FirstInts(m.content, |fmt|)
    ensures Unpacked(fmt, m.body).Ok? ==> Unpacked(fmt, m.body).value == m.content[..|fmt|]
  {
    hide Decoded, Unpacked;
    Requests.UnpackedOfDecoded(fmt, m.body);
  }

  /** The lock query: with no lock in force, or a radio already unlocked, on to the mode; else the challenge. */
  lemma {:induction false} LockDecision(cfg: Config, m: Message)
    requires Genuine(m)
    ensures Answered(cfg, FccQuery, m)
            == if !FirstInts(m.content, 3) then Stopped
               else if m.content[2].value == 0 || m.content[1].value != 0 then Ready(SetMode)
               else Ready(FccChallenge)
  {
    hide Genuine, Unpacked;
    UnpackedInts("nnn", m);
  }

  /** The challenge is the second value, and the answer made of it goes out next. */
  lemma {:induction false} ChallengeDecision(cfg: Config, m: Message)
    requires Genuine(m)
    ensures Answered(cfg, FccChallenge, m)
            == if !FirstInts(m.content, 2) then Stopped else Ready(FccVerify(cfg.unlock(m.content[1].value)))
  {
    hide Genuine, Unpacked;
    UnpackedInts("nn", m);
  }

  /** Only a first value of one unlocks. */
  lemma {:induction false} VerdictDecision(cfg: Config, answer: u32, m: Message)
    requires Genuine(m)
    ensures Answered(cfg, FccVerify(answer), m)
            == if FirstInts(m.content, 1) && m.content[0].value == 1 then Ready(SetMode) else Stopped
  {
    hide Genuine, Unpacked;
    UnpackedInts("n", m);
  }

  /** A second value of 0xffffffff refuses the attach: the first time it is awaited, the second it is final. */
  lemma {:induction false} AttachDecision(cfg: Config, m: Message)
    requires Genuine(m)
    ensures Answered(cfg, Attach, m)
            == if !FirstInts(m.content, 2) then Stopped
               else if m.content[1].value == 0xffff_ffff then AttachPending else Ready(AskIp)
    ensures Answered(cfg, AttachAgain, m)
            == if !FirstInts(m.content, 2) then Stopped
               else if m.content[1].value == 0xffff_ffff then Refused else Ready(AskIp)
    ensures GrantsAttach(m) <==> FirstInts(m.content, 2) && m.content[1].value != 0xffff_ffff
  {
    hide Genuine, Unpacked;
    UnpackedInts("nn", m);
  }

  /** The mode request is accepted with a first value of zero, and done with an indication of one. */
  lemma {:induction false} ModeDecision(cfg: Config, m: Message, allowed: bool)
    ensures Answered(cfg, SetMode, m)
            == if FirstInts(m.content, 1) && m.content[0].value == 0 then ModePending else Stopped
    ensures Next(cfg, ModePending, allowed, Heard(m))
            == if m.code != 0x12d then ModePending
               else if FirstInts(m.content, 1) && m.content[0].value == 1 then Ready(Version) else Stopped
  {
  }

  /** The three candidate addresses of some values. */
  predicate HasCandidates(vs: seq<Value>) {
    && |vs| >= 6 && vs[0].Int? && vs[1].Bytes? && vs[2].Int? && vs[3].Int? && vs[4].Int? && vs[5].Int?
    && |vs[1].bytes| >= 12
  }

  /** An address is assigned when one of the first 12 bytes of the second value is not zero. */
  lemma {:induction false} AddressDecision(cfg: Config, m: Message)
    requires Genuine(m)
    ensures CarriesAddress(m) <==>
              HasCandidates(m.content) && exists k :: 0 <= k < 12 && m.content[1].bytes[k] != 0
    ensures Answered(cfg, AskIp, m)
            == if HasCandidates(m.content) then Ready(AskDns(CarriesAddress(m))) else Stopped
  {
    hide Decoded, Unpacked;
    Requests.NegIpOfDecoded(m.body);
    if HasCandidates(m.content) {
      CandidatesAssigned(m.content[1].bytes, Requests.ParsedNegIp(m.body).value);
    }
  }

  lemma {:induction false} CandidatesAssigned(b: seq<byte>, addresses: seq<Requests.Ipv4>)
    requires |b| >= 12
    requires addresses == [[b[0], b[1], b[2], b[3]], [b[4], b[5], b[6], b[7]], [b[8], b[9], b[10], b[11]]]
    ensures HasAddress(addresses) <==> exists k :: 0 <= k < 12 && b[k] != 0
  {
    forall i | 0 <= i < 3
      ensures addresses[i] != Requests.UNSPECIFIED <==>
                b[4 * i] != 0 || b[4 * i + 1] != 0 || b[4 * i + 2] != 0 || b[4 * i + 3] != 0
    {
    }
    if exists k :: 0 <= k < 12 && b[k] != 0 {
      var k :| 0 <= k < 12 && b[k] != 0;
      assert addresses[k / 4] != Requests.UNSPECIFIED;
    }
  }

  /** A history the automaton follows to its end. */
  predicate Follows(cfg: Config, history: seq<Act>) {
    !PhaseOf(cfg, history).Astray?
  }

  lemma {:induction false} PhaseSnoc(cfg: Config, history: seq<Act>, act: Act)
    ensures PhaseOf(cfg, history + [act]) == Next(cfg, PhaseOf(cfg, history), AttachFlag(history), act)
  {
    assert (history + [act])[..|history|] == history;
  }

  lemma {:induction false} SkippedKeepsPhase(cfg: Config, history: seq<Act>, m: Message)
    requires PhaseOf(cfg, history).Waiting? && !m.kind.Response?
    ensures PhaseOf(cfg, history + [Heard(m)]) == PhaseOf(cfg, history)
  {
    PhaseSnoc(cfg, history, Heard(m));
  }

  /** Messages that are skipped while a request waits do not move the phase. */
  lemma {:induction false} SkippedKeepPhase(cfg: Config, history: seq<Act>, skipped: seq<Message>)
    requires PhaseOf(cfg, history).Waiting?
    requires forall i :: 0 <= i < |skipped| ==> !skipped[i].kind.Response?
    ensures PhaseOf(cfg, history + Receipts(skipped)) == PhaseOf(cfg, history)
    decreases |skipped|
  {
    if skipped == [] {
      assert history + Receipts(skipped) == history;
    } else {
      SkippedKeepsPhase(cfg, history, skipped[0]);
      SkippedKeepPhase(cfg, history + [Heard(skipped[0])], skipped[1..]);
      Associate(history, [Heard(skipped[0])], Receipts(skipped[1..]));
    }
  }

  /** Once astray, always astray: every prefix of a history that follows the automaton does too. */
  lemma {:induction false} PrefixFollows(cfg: Config, history: seq<Act>, n: nat)
    requires Follows(cfg, history) && n <= |history|
    ensures Follows(cfg, history[..n])
    decreases |history| - n
  {
    if n == |history| {
      assert history[..n] == history;
    } else {
      PrefixFollows(cfg, history, n + 1);
      assert history[..n + 1] == history[..n] + [history[n]];
      PhaseSnoc(cfg, history[..n], history[n]);
    }
  }

  // ---------------------------------------------------------------- the order of the requests

  /** The steps whose requests a history issued, in order. */
  function StepsOf(cfg: Config, history: seq<Act>): seq<Step> {
    if history == [] then []
    else
      var front := StepsOf(cfg, history[..|history| - 1]);
      var phase := PhaseOf(cfg, history);
      if history[|history| - 1].Issued? && phase.Waiting? then front + [phase.step] else front
  }

  lemma {:induction false} StepsSnoc(cfg: Config, history: seq<Act>, act: Act)
    ensures StepsOf(cfg, history + [act])
            == if act.Issued? && PhaseOf(cfg, history + [act]).Waiting?
               then StepsOf(cfg, history) + [PhaseOf(cfg, history + [act]).step] else StepsOf(cfg, history)
  {
    assert (history + [act])[..|history|] == history;
  }

  lemma {:induction false} ReceiptsAreNoSteps(cfg: Config, history: seq<Act>, skipped: seq<Message>)
    ensures StepsOf(cfg, history + Receipts(skipped)) == StepsOf(cfg, history)
    decreases |skipped|
  {
    if skipped == [] {
      assert history + Receipts(skipped) == history;
    } else {
      StepsSnoc(cfg, history, Heard(skipped[0]));
      ReceiptsAreNoSteps(cfg, history + [Heard(skipped[0])], skipped[1..]);
      Associate(history, [Heard(skipped[0])], Receipts(skipped[1..]));
    }
  }

  // ---------------------------------------------------------------- one exchange

  /** The automaton lets a history go on with the request of a step. */
  predicate MayIssue(cfg: Config, history: seq<Act>, step: Step, request: Request) {
    && IsRequest(cfg, step, request)
    && (PhaseOf(cfg, history) == Ready(step)
        || (step.AttachAgain? && PhaseOf(cfg, history).AttachPending? && AttachFlag(history)))
  }

  /** A reply to a step was heard, at a position of the history, while the step waited for it. */
  ghost predicate RepliedAt(cfg: Config, history: seq<Act>, i: int, step: Step) {
    && 0 <= i < |history| && history[i].Heard? && history[i].message.kind.Response?
    && PhaseOf(cfg, history[..i]) == Waiting(step)
  }

  /** The last act of a history is a reply to a step, with a given body. */
  ghost predicate JustReplied(cfg: Config, history: seq<Act>, step: Step, body: seq<byte>) {
    RepliedAt(cfg, history, |history| - 1, step) && history[|history| - 1].message.body == body
  }

  /** While the reply to a request is awaited, its step waits, whatever is skipped. */
  lemma {:induction false} WaitsAfterExchange(cfg: Config, before: seq<Act>, step: Step, request: Request, skipped: seq<Message>)
    requires MayIssue(cfg, before, step, request)
    requires forall i :: 0 <= i < |skipped| ==> !skipped[i].kind.Response?
    ensures PhaseOf(cfg, before + [Issued(request)] + Receipts(skipped)) == Waiting(step)
    ensures StepsOf(cfg, before + [Issued(request)] + Receipts(skipped)) == StepsOf(cfg, before) + [step]
  {
    hide IsRequest;
    var issued := before + [Issued(request)];
    PhaseSnoc(cfg, before, Issued(request));
    StepsSnoc(cfg, before, Issued(request));
    SkippedKeepPhase(cfg, issued, skipped);
    ReceiptsAreNoSteps(cfg, issued, skipped);
  }

  /** The phase after a request, the messages skipped while it waits, and its outcome. */
  lemma {:induction false} PhaseAfterExchange(cfg: Config, before: seq<Act>, step: Step, request: Request,
                           skipped: seq<Message>, r: Result<Message, Error>)
    requires MayIssue(cfg, before, step, request)
    requires forall i :: 0 <= i < |skipped| ==> !skipped[i].kind.Response?
    requires r.Ok? ==> r.value.kind.Response?
    ensures var after := before + [Issued(request)] + Receipts(skipped) + [Outcome(r)];
            && PhaseOf(cfg, after) == (if r.Ok? then Answered(cfg, step, r.value) else Failed(step, r.error))
            && StepsOf(cfg, after) == StepsOf(cfg, before) + [step]
            && (r.Ok? ==> JustReplied(cfg, after, step, r.value.body))
  {
    hide MayIssue, Answered, Failed;
    var waited := before + [Issued(request)] + Receipts(skipped);
    WaitsAfterExchange(cfg, before, step, request, skipped);
    PhaseSnoc(cfg, waited, Outcome(r));
    StepsSnoc(cfg, waited, Outcome(r));
    assert (waited + [Outcome(r)])[..|waited|] == waited;
  }

  // ---------------------------------------------------------------- the order

  /** Which request may come right after which. */
  predicate MayFollow(a: Step, b: Step) {
    match b
    case Probe => a.Probe?
    case Init(k) => if k == 0 then a.Probe? else a == Init(k - 1)
    case FccQuery => a == Init(6)
    case FccChallenge => a.FccQuery?
    case FccVerify(_) => a.FccChallenge?
    case SetMode => a.FccQuery? || a.FccVerify?
    case Version => a.SetMode?
    case ApnConfig => a.Version?
    case Attach => a.ApnConfig?
    case AttachAgain => a.Attach?
    case AskIp => a.Attach? || a.AttachAgain? || a == AskDns(false)
    case AskDns(_) => a.AskIp?
    case PsConnect => a == AskDns(true)
    case DataChannel(_) => a.PsConnect?
    case Setup(_) => a.DataChannel?
  }

  /** A run of requests that starts with a probe and in which each may follow the one before. */
  ghost predicate InOrder(steps: seq<Step>) {
    && (steps != [] ==> steps[0].Probe?)
    && forall i :: 0 <= i < |steps| - 1 ==> MayFollow(steps[i], steps[i + 1])
  }

  /** The initialisations issued are among the seven there are. */
  predicate Legitimate(step: Step) {
    step.Init? ==> step.k < 7
  }

  /** What the phase says about the last request issued. */
  predicate Fitting(steps: seq<Step>, phase: Phase) {
    if steps == [] then phase == Ready(Probe)
    else
      var last := steps[|steps| - 1];
      Legitimate(last) &&
      match phase
      case Ready(step) => MayFollow(last, step) && Legitimate(step)
      case Waiting(step) => last == step
      case ProbeTimedOut => last.Probe?
      case ModePending => last.SetMode?
      case AttachPending => last.Attach?
      case Refused => last.AttachAgain?
      case Up => last.Setup?
      case Stopped => true
      case Astray => false
  }

  lemma {:induction false} FittingNext(cfg: Config, steps: seq<Step>, phase: Phase, allowed: bool, act: Act)
    requires Fitting(steps, phase) && InOrder(steps)
    requires !Next(cfg, phase, allowed, act).Astray?
    ensures var phase' := Next(cfg, phase, allowed, act);
            var steps' := if act.Issued? then steps + [phase'.step] else steps;
            (act.Issued? ==> phase'.Waiting?) && Fitting(steps', phase') && InOrder(steps')
  {
  }

  /** Every history that follows the automaton issues its requests in order. */
  lemma {:induction false} RequestsInOrder(cfg: Config, history: seq<Act>)
    requires Follows(cfg, history)
    ensures Fitting(StepsOf(cfg, history), PhaseOf(cfg, history)) && InOrder(StepsOf(cfg, history))
    decreases |history|
  {
    if history != [] {
      var front := history[..|history| - 1];
      PrefixFollows(cfg, history, |history| - 1);
      RequestsInOrder(cfg, front);
      FittingNext(cfg, StepsOf(cfg, front), PhaseOf(cfg, front), AttachFlag(front), history[|history| - 1]);
    }
  }

  /** The steps are those of the requests issued, one for one: no request is left out of the order. */
  lemma {:induction false} IssuedAreSteps(cfg: Config, history: seq<Act>)
    requires Follows(cfg, history)
    ensures |StepsOf(cfg, history)| == |RequestsOf(history)|
    ensures forall n :: 0 <= n < |RequestsOf(history)| ==>
              IsRequest(cfg, StepsOf(cfg, history)[n], RequestsOf(history)[n])
    decreases |history|
  {
    if history != [] {
      var front := history[..|history| - 1];
      PrefixFollows(cfg, history, |history| - 1);
      IssuedAreSteps(cfg, front);
      if history[|history| - 1].Issued? {
        IssuedNext(cfg, PhaseOf(cfg, front), AttachFlag(front), history[|history| - 1]);
      }
    }
  }

  lemma {:induction false} IssuedNext(cfg: Config, phase: Phase, allowed: bool, act: Act)
    requires act.Issued? && !Next(cfg, phase, allowed, act).Astray?
    ensures var after := Next(cfg, phase, allowed, act); after.Waiting? && IsRequest(cfg, after.step, act.request)
  {
  }

  /** How far along the bring-up a request is. */
  function Rank(step: Step): nat {
    match step
    case Probe => 0
    case Init(k) => 1 + k
    case FccQuery => 8
    case FccChallenge => 9
    case FccVerify(_) => 10
    case SetMode => 11
    case Version => 12
    case ApnConfig => 13
    case Attach => 14
    case AttachAgain => 15
    case AskIp => 16
    case AskDns(_) => 16
    case PsConnect => 17
    case DataChannel(_) => 18
    case Setup(_) => 19
  }

  /** Requests that may come more than once: the probe, and the address and name-server queries. */
  predicate Repeatable(step: Step) {
    step.Probe? || step.AskIp? || step.AskDns?
  }

  /** The order only goes forward, and every other request is issued at most once. */
  lemma {:induction false} RanksIncrease(steps: seq<Step>, i: nat, j: nat)
    requires InOrder(steps) && i < j < |steps|
    requires forall n :: 0 <= n < |steps| ==> Legitimate(steps[n])
    ensures Rank(steps[i]) <= Rank(steps[j])
    ensures Rank(steps[i]) == Rank(steps[j]) ==> Repeatable(steps[i]) && Repeatable(steps[j])
    decreases j - i
  {
    assert MayFollow(steps[j - 1], steps[j]);
    if i < j - 1 {
      RanksIncrease(steps, i, j - 1);
    }
  }

  lemma {:induction false} StepsAreLegitimate(cfg: Config, history: seq<Act>)
    requires Follows(cfg, history)
    ensures forall n :: 0 <= n < |StepsOf(cfg, history)| ==> Legitimate(StepsOf(cfg, history)[n])
    decreases |history|
  {
    if history != [] {
      PrefixFollows(cfg, history, |history| - 1);
      StepsAreLegitimate(cfg, history[..|history| - 1]);
      RequestsInOrder(cfg, history);
    }
  }

  /** No two requests are of the same kind, unless repeatable; so there are at most two attach requests. */
  lemma {:induction false} IssuedOnce(cfg: Config, history: seq<Act>, i: nat, j: nat)
    requires Follows(cfg, history) && i < j < |StepsOf(cfg, history)|
    ensures var steps := StepsOf(cfg, history);
            Rank(steps[i]) == Rank(steps[j]) ==> Repeatable(steps[i]) && Repeatable(steps[j])
  {
    RequestsInOrder(cfg, history);
    StepsAreLegitimate(cfg, history);
    RanksIncrease(StepsOf(cfg, history), i, j);
  }

  lemma {:induction false} LastRankBounds(steps: seq<Step>, bound: nat)
    requires InOrder(steps) && forall n :: 0 <= n < |steps| ==> Legitimate(steps[n])
    requires steps != [] ==> Rank(steps[|steps| - 1]) < bound
    ensures forall n :: 0 <= n < |steps| ==> Rank(steps[n]) < bound
  {
    forall n | 0 <= n < |steps| ensures Rank(steps[n]) < bound {
      if n < |steps| - 1 {
        RanksIncrease(steps, n, |steps| - 1);
      }
    }
  }

  /** The commands of the data channel: connect, channel, setup. */
  const DATA_CHANNEL_COMMANDS: set<u32> := {0x051, 0x07e, 0x07d}

  lemma {:induction false} DataChannelSteps(cfg: Config, step: Step, r: Request)
    requires IsRequest(cfg, step, r)
    ensures r.cmd in DATA_CHANNEL_COMMANDS <==> Rank(step) >= Rank(PsConnect)
  {
  }

  /** While the attach is refused or the address awaited, nothing of the data channel was issued. */
  lemma {:induction false} NoDataChannelYet(cfg: Config, history: seq<Act>)
    requires PhaseOf(cfg, history).Refused? || PhaseOf(cfg, history) == Ready(AskIp)
    ensures forall n :: 0 <= n < |RequestsOf(history)| ==> RequestsOf(history)[n].cmd !in DATA_CHANNEL_COMMANDS
  {
    RequestsInOrder(cfg, history);
    StepsAreLegitimate(cfg, history);
    LastRankBounds(StepsOf(cfg, history), Rank(PsConnect));
    IssuedAreSteps(cfg, history);
    forall n | 0 <= n < |RequestsOf(history)| ensures RequestsOf(history)[n].cmd !in DATA_CHANNEL_COMMANDS {
      DataChannelSteps(cfg, StepsOf(cfg, history)[n], RequestsOf(history)[n]);
    }
  }

  // ---------------------------------------------------------------- what must have happened before

  /** A reply that granted an attach was heard while an attach request waited for it. */
  ghost predicate AttachGranted(cfg: Config, history: seq<Act>) {
    exists i :: 0 <= i < |history| && GrantAt(cfg, history, i)
  }

  ghost predicate GrantAt(cfg: Config, history: seq<Act>, i: nat)
    requires i < |history|
  {
    && history[i].Heard? && history[i].message.kind.Response? && GrantsAttach(history[i].message)
    && PhaseOf(cfg, history[..i]) in {Waiting(Attach), Waiting(AttachAgain)}
  }

  /** A reply with an address in it was heard while an address query waited for it. */
  ghost predicate AddressAssigned(cfg: Config, history: seq<Act>) {
    exists i :: 0 <= i < |history| && AddressAt(cfg, history, i)
  }

  ghost predicate AddressAt(cfg: Config, history: seq<Act>, i: nat)
    requires i < |history|
  {
    && history[i].Heard? && history[i].message.kind.Response? && CarriesAddress(history[i].message)
    && PhaseOf(cfg, history[..i]) == Waiting(AskIp)
  }

  predicate NeedsAttach(phase: Phase) {
    ((phase.Ready? || phase.Waiting?) && Rank(phase.step) >= Rank(AskIp)) || phase.Up?
  }

  predicate NeedsAddress(phase: Phase) {
    ((phase.Ready? || phase.Waiting?) && (Rank(phase.step) >= Rank(PsConnect) || phase.step == AskDns(true))) || phase.Up?
  }

  lemma {:induction false} GrantPersists(cfg: Config, front: seq<Act>, history: seq<Act>)
    requires history != [] && front == history[..|history| - 1] && AttachGranted(cfg, front)
    ensures AttachGranted(cfg, history)
  {
    var i :| 0 <= i < |front| && GrantAt(cfg, front, i);
    assert front[..i] == history[..i] && front[i] == history[i];
    assert GrantAt(cfg, history, i);
  }

  lemma {:induction false} AddressPersists(cfg: Config, front: seq<Act>, history: seq<Act>)
    requires history != [] && front == history[..|history| - 1] && AddressAssigned(cfg, front)
    ensures AddressAssigned(cfg, history)
  {
    var i :| 0 <= i < |front| && AddressAt(cfg, front, i);
    assert front[..i] == history[..i] && front[i] == history[i];
    assert AddressAt(cfg, history, i);
  }

  /** Only a granting reply takes the phase past the attach. */
  lemma {:induction false} AttachGuardStep(cfg: Config, before: Phase, allowed: bool, act: Act)
    requires NeedsAttach(Next(cfg, before, allowed, act)) && !NeedsAttach(before)
    ensures before in {Waiting(Attach), Waiting(AttachAgain)}
    ensures act.Heard? && act.message.kind.Response? && GrantsAttach(act.message)
  {
  }

  /** Only a reply with an address takes the phase past the address query. */
  lemma {:induction false} AddressGuardStep(cfg: Config, before: Phase, allowed: bool, act: Act)
    requires NeedsAddress(Next(cfg, before, allowed, act)) && !NeedsAddress(before)
    ensures before == Waiting(AskIp)
    ensures act.Heard? && act.message.kind.Response? && CarriesAddress(act.message)
  {
  }

  /**
   * No request of the data channel is ready before an attach was granted and an address assigned:
   * over every history, the replies that say so are in it.
   */
  lemma {:induction false} DataChannelIsGuarded(cfg: Config, history: seq<Act>)
    ensures NeedsAttach(PhaseOf(cfg, history)) ==> AttachGranted(cfg, history)
    ensures NeedsAddress(PhaseOf(cfg, history)) ==> AddressAssigned(cfg, history)
    decreases |history|
  {
    if history != [] {
      var n := |history| - 1;
      var front := history[..n];
      DataChannelIsGuarded(cfg, front);
      if AttachGranted(cfg, front) {
        GrantPersists(cfg, front, history);
      }
      if AddressAssigned(cfg, front) {
        AddressPersists(cfg, front, history);
      }
      var before, after := PhaseOf(cfg, front), PhaseOf(cfg, history);
      if NeedsAttach(after) && !NeedsAttach(before) {
        AttachGuardStep(cfg, before, AttachFlag(front), history[n]);
        assert GrantAt(cfg, history, n);
      }
      if NeedsAddress(after) && !NeedsAddress(before) {
        AddressGuardStep(cfg, before, AttachFlag(front), history[n]);
        assert AddressAt(cfg, history, n);
      }
    }
  }

  /** So whenever a data-channel request goes out, both replies have been heard. */
  lemma {:induction false} DataChannelRequestIsGuarded(cfg: Config, history: seq<Act>, i: nat)
    requires Follows(cfg, history) && i < |history|
    requires history[i].Issued? && history[i].request.cmd in DATA_CHANNEL_COMMANDS
    ensures AttachGranted(cfg, history[..i]) && AddressAssigned(cfg, history[..i])
  {
    PrefixFollows(cfg, history, i + 1);
    assert history[..i + 1] == history[..i] + [history[i]];
    PhaseSnoc(cfg, history[..i], history[i]);
    DataChannelPhase(cfg, PhaseOf(cfg, history[..i]), AttachFlag(history[..i]), history[i]);
    DataChannelIsGuarded(cfg, history[..i]);
  }

  lemma {:induction false} DataChannelPhase(cfg: Config, before: Phase, allowed: bool, act: Act)
    requires act.Issued? && act.request.cmd in DATA_CHANNEL_COMMANDS && !Next(cfg, before, allowed, act).Astray?
    ensures NeedsAttach(before) && NeedsAddress(before)
  {
    DataChannelSteps(cfg, Next(cfg, before, allowed, act).step, act.request);
  }

  /** A reply was heard that says the radio is not locked, or accepts the answer that unlocks it. */
  ghost predicate Unlocked(cfg: Config, history: seq<Act>) {
    exists i :: 0 <= i < |history| && UnlockAt(cfg, history, i)
  }

  ghost predicate UnlockAt(cfg: Config, history: seq<Act>, i: nat)
    requires i < |history|
  {
    history[i].Heard? && history[i].message.kind.Response? && Unlocks(PhaseOf(cfg, history[..i]), history[i].message.content)
  }

  /**
   * Values that clear the radio: in reply to the lock query a third value, the mode, of zero or a
   * second, the state, other than zero; in reply to the answer a first value of one.
   */
  predicate Unlocks(phase: Phase, vs: seq<Value>) {
    phase.Waiting? &&
    ((phase.step.FccQuery? && FirstInts(vs, 3) && (vs[2].value == 0 || vs[1].value != 0))
     || (phase.step.FccVerify? && FirstInts(vs, 1) && vs[0].value == 1))
  }

  predicate NeedsUnlock(phase: Phase) {
    || ((phase.Ready? || phase.Waiting?) && Rank(phase.step) >= Rank(SetMode))
    || phase.ModePending? || phase.AttachPending? || phase.Refused? || phase.Up?
  }

  lemma {:induction false} UnlockStep(cfg: Config, before: Phase, allowed: bool, act: Act)
    requires NeedsUnlock(Next(cfg, before, allowed, act)) && !NeedsUnlock(before)
    requires act.Heard? ==> Genuine(act.message)
    ensures act.Heard? && act.message.kind.Response? && Unlocks(before, act.message.content)
  {
    hide FirstInts, Decoded, Unpacked;
    if act.Heard? && before.Waiting? {
      if before.step.FccQuery? {
        LockDecision(cfg, act.message);
      } else if before.step.FccVerify? {
        VerdictDecision(cfg, before.step.answer, act.message);
      }
    }
  }

  /** The mode is never set on a locked radio: the reply that clears it is in every such history. */
  lemma {:induction false} ModeSetIsUnlocked(cfg: Config, history: seq<Act>)
    requires AllGenuine(history) && NeedsUnlock(PhaseOf(cfg, history))
    ensures Unlocked(cfg, history)
    decreases |history|
  {
    hide Genuine, Unlocks, NeedsUnlock, Next;
    assert history != [] by {
      NothingUnlocked(cfg);
    }
    var n := |history| - 1;
    var front := history[..n];
    if NeedsUnlock(PhaseOf(cfg, front)) {
      ModeSetIsUnlocked(cfg, front);
      var i :| 0 <= i < |front| && UnlockAt(cfg, front, i);
      assert front[..i] == history[..i] && front[i] == history[i];
      assert UnlockAt(cfg, history, i);
    } else {
      UnlockStep(cfg, PhaseOf(cfg, front), AttachFlag(front), history[n]);
      assert UnlockAt(cfg, history, n);
    }
  }

  lemma {:induction false} NothingUnlocked(cfg: Config)
    ensures !NeedsUnlock(PhaseOf(cfg, []))
  {
  }

  /** A second attach request comes only after a refusal, and only while attach is allowed. */
  lemma {:induction false} SecondAttachIsAllowed(cfg: Config, history: seq<Act>, i: nat)
    requires i < |history| && PhaseOf(cfg, history[..i + 1]) == Waiting(AttachAgain) && history[i].Issued?
    ensures PhaseOf(cfg, history[..i]) == AttachPending && AttachFlag(history[..i])
  {
    assert history[..i + 1] == history[..i] + [history[i]];
    PhaseSnoc(cfg, history[..i], history[i]);
    NeverReadyToAttachAgain(cfg, history[..i]);
  }

  lemma {:induction false} NeverReadyToAttachAgain(cfg: Config, history: seq<Act>)
    ensures PhaseOf(cfg, history) != Ready(AttachAgain)
  {
    if history != [] {
      var before := PhaseOf(cfg, history[..|history| - 1]);
      if before.Waiting? {
        assert forall m: Message :: Answered(cfg, before.step, m) != Ready(AttachAgain);
      }
    }
  }

  lemma {:induction false} PendingStep(cfg: Config, before: Phase, allowed: bool, act: Act)
    requires Next(cfg, before, allowed, act).AttachPending? && !before.AttachPending?
    ensures before == Waiting(Attach) && act.Heard? && RefusesAttach(act.message)
  {
  }

  /** A refusal was heard when the attach is pending. */
  lemma {:induction false} PendingMeansRefused(cfg: Config, history: seq<Act>)
    requires PhaseOf(cfg, history).AttachPending?
    ensures exists i :: 0 <= i < |history| && history[i].Heard? && RefusesAttach(history[i].message)
                        && PhaseOf(cfg, history[..i]) == Waiting(Attach)
    decreases |history|
  {
    var n := |history| - 1;
    var front := history[..n];
    if PhaseOf(cfg, front).AttachPending? {
      PendingMeansRefused(cfg, front);
      var i :| 0 <= i < |front| && front[i].Heard? && RefusesAttach(front[i].message)
               && PhaseOf(cfg, front[..i]) == Waiting(Attach);
      assert front[..i] == history[..i] && history[i] == front[i];
    } else {
      PendingStep(cfg, PhaseOf(cfg, front), AttachFlag(front), history[n]);
    }
  }

  /**
   * The discipline the session needs is kept with one exception: after a failed request the port is
   * reopened before the next one, unless the request was the version query, whose failure is ignored.
   */
  lemma {:induction false} FailuresReopen(cfg: Config, history: seq<Act>, i: nat)
    requires Follows(cfg, history) && i + 1 < |history| && history[i].Lost? && PhaseOf(cfg, history[..i]).Waiting?
    ensures history[i + 1].Reopened? || history[i + 1].Lost? || PhaseOf(cfg, history[..i]) == Waiting(Version)
  {
    PrefixFollows(cfg, history, i + 2);
    assert history[..i + 1] == history[..i] + [history[i]];
    assert history[..i + 2] == history[..i + 1] + [history[i + 1]];
    PhaseSnoc(cfg, history[..i], history[i]);
    PhaseSnoc(cfg, history[..i + 1], history[i + 1]);
  }

  /**
   * The setup payload decodes to the values of the connect reply less its last, then those of the
   * data-channel reply, then a zero, when the connect reply ends in a four-byte integer.
   */
  lemma {:induction false} SetupPayloadDecodes(a: seq<byte>, x: u32, raw: seq<byte>, m: Message)
    requires Decoded(a).Ok? && ParsedMessage(raw) == Ok(m)
    ensures Decoded(Splice(a + AsnInt(x), m.body)) == Ok(Decoded(a).value + m.content + [Int(0)])
  {
    assert Decoded(m.body) == Ok(m.content) by {
      ContentIsDecodedBody(raw);
    }
    SpliceDecodes(a, x, m.body, 0);
  }

  // ---------------------------------------------------------------- commands

  /** Which command may come right after which, by number. */
  const FOLLOWERS: set<(u32, u32)> := {
    (0x18e, 0x18e), (0x18e, 0x030), (0x030, 0x025), (0x025, 0x053), (0x053, 0x024), (0x024, 0x03a), (0x03a, 0x026),
    (0x026, 0x001), (0x001, 0x18e), (0x18e, 0x190), (0x190, 0x192), (0x18e, 0x12f), (0x192, 0x12f), (0x12f, 0x07c),
    (0x07c, 0x1af), (0x1af, 0x05c), (0x05c, 0x05c), (0x05c, 0x049), (0x049, 0x047), (0x047, 0x049), (0x047, 0x051),
    (0x051, 0x07e), (0x07e, 0x07d)}

  /** The commands sent without an echoed transaction id. */
  const SYNC_COMMANDS: set<u32> :=
    {0x030, 0x025, 0x053, 0x024, 0x03a, 0x026, 0x001, 0x12f, 0x07c, 0x07e, 0x07d}

  lemma {:induction false} FollowingCommands(cfg: Config, a: Step, b: Step, r: Request, q: Request)
    requires MayFollow(a, b) && Legitimate(a) && Legitimate(b) && IsRequest(cfg, a, r) && IsRequest(cfg, b, q)
    ensures (r.cmd, q.cmd) in FOLLOWERS
  {
  }

  lemma {:induction false} SyncCommands(cfg: Config, step: Step, r: Request)
    requires IsRequest(cfg, step, r)
    ensures r.mode.Sync? <==> r.cmd in SYNC_COMMANDS
  {
  }

  /** The commands of every history, by number: a probe first, and each of them one that may follow. */
  lemma {:induction false} CommandsInOrder(cfg: Config, history: seq<Act>)
    requires Follows(cfg, history)
    ensures var rs := RequestsOf(history);
            && (rs != [] ==> rs[0].cmd == 0x18e)
            && (forall n :: 0 <= n < |rs| - 1 ==> (rs[n].cmd, rs[n + 1].cmd) in FOLLOWERS)
            && forall n :: 0 <= n < |rs| ==> (rs[n].mode.Sync? <==> rs[n].cmd in SYNC_COMMANDS)
  {
    hide *;
    var steps, rs := StepsOf(cfg, history), RequestsOf(history);
    RequestsInOrder(cfg, history);
    StepsAreLegitimate(cfg, history);
    IssuedAreSteps(cfg, history);
    FirstIsProbe(cfg, steps, rs);
    forall n | 0 <= n < |rs| - 1 ensures (rs[n].cmd, rs[n + 1].cmd) in FOLLOWERS {
      NeighboursFollow(steps, n);
      FollowingCommands(cfg, steps[n], steps[n + 1], rs[n], rs[n + 1]);
    }
    forall n | 0 <= n < |rs| ensures rs[n].mode.Sync? <==> rs[n].cmd in SYNC_COMMANDS {
      SyncCommands(cfg, steps[n], rs[n]);
    }
  }

  /** The payload each command is sent with. */
  predicate PayloadFits(b: Bodies, r: Request) {
    && (r.cmd in {0x18e, 0x190, 0x030, 0x025, 0x053, 0x024, 0x03a, 0x026, 0x001} ==> r.body == b.zero)
    && (r.cmd == 0x12f ==> r.body == b.modeSet) && (r.cmd == 0x07c ==> r.body == b.sysInfo)
    && (r.cmd == 0x1af ==> b.apnConfig == Ok(r.body)) && (r.cmd == 0x05c ==> r.body == b.netAttach)
    && (r.cmd == 0x049 ==> r.body == b.negIp) && (r.cmd == 0x047 ==> r.body == b.negDns)
    && (r.cmd == 0x051 ==> r.body == b.psConnect) && (r.cmd == 0x07e ==> b.path == Ok(r.body))
  }

  lemma {:induction false} StepPayload(cfg: Config, step: Step, r: Request)
    requires IsRequest(cfg, step, r) && Legitimate(step)
    ensures PayloadFits(cfg.bodies, r)
  {
  }

  /** Every request of a history carries the payload of its command. */
  lemma {:induction false} PayloadsByCommand(cfg: Config, history: seq<Act>)
    requires Follows(cfg, history)
    ensures forall n :: 0 <= n < |RequestsOf(history)| ==> PayloadFits(cfg.bodies, RequestsOf(history)[n])
  {
    hide *;
    StepsAreLegitimate(cfg, history);
    IssuedAreSteps(cfg, history);
    forall n | 0 <= n < |RequestsOf(history)| ensures PayloadFits(cfg.bodies, RequestsOf(history)[n]) {
      StepPayload(cfg, StepsOf(cfg, history)[n], RequestsOf(history)[n]);
    }
  }

  lemma {:induction false} NeighboursFollow(steps: seq<Step>, n: nat)
    requires InOrder(steps) && n < |steps| - 1
    ensures MayFollow(steps[n], steps[n + 1])
  {
  }

  lemma {:induction false} FirstIsProbe(cfg: Config, steps: seq<Step>, rs: seq<Request>)
    requires InOrder(steps) && |steps| == |rs| && (rs != [] ==> IsRequest(cfg, steps[0], rs[0]))
    ensures rs != [] ==> rs[0].cmd == 0x18e
  {
  }

  /** What the firmware reads in the request payloads, and which of them can fail. */
  lemma {:induction false} BodiesDecode(apn: seq<byte>, path: seq<byte>)
    ensures var b := BodiesFor(apn, path);
            && Decoded(b.zero) == Ok([Int(0)]) && Decoded(b.modeSet) == Ok([Int(0), Int(15), Int(1)])
            && Decoded(b.sysInfo) == Ok([Int(0), Bytes([]), Int(0)])
            && Decoded(b.netAttach) == Ok([Int(0), Int(0), Int(0), Int(0), Int(0), Int(0xffff), Int(0xffff), Int(0), Int(0)])
            && Decoded(b.negIp) == Ok([Int(0), Int(0), Int(0)]) && Decoded(b.negDns) == Ok([Int(0), Int(0), Int(0)])
            && Decoded(b.psConnect) == Ok([Int(0), Int(6), Int(0), Int(0)])
            && b.apnConfig == Apn.AttachConfig(apn)
            && (if |apn| <= 101 then b.apnConfig.Ok? else b.apnConfig == Err(StringOverflow(|apn|, 101)))
            && (if |path| < 24 then b.path.Ok? && Decoded(b.path.value) == Ok([Bytes(path + [0])])
                else b.path == Err(StringOverflow(|path| + 1, 24)))
  {
    hide Decoded, Packed, AsnInt;
    DecodedAsnIntAlone(0);
    Requests.DatachannelPathFits(path);
    if |apn| <= 101 {
      Apn.AttachConfigValues(apn);
    }
  }

  // ---------------------------------------------------------------- what a payload is made of

  /** The challenge an answer was made of. */
  lemma {:induction false} ChallengeHeard(cfg: Config, history: seq<Act>)
    requires AllGenuine(history)
    requires var p := PhaseOf(cfg, history); (p.Ready? || p.Waiting?) && p.step.FccVerify?
    ensures exists j :: RepliedAt(cfg, history, j, FccChallenge) && FirstInts(history[j].message.content, 2)
                        && PhaseOf(cfg, history).step.answer == cfg.unlock(history[j].message.content[1].value)
    decreases |history|
  {
    hide Answered, IsRequest, Genuine;
    assert history != [];
    var n := |history| - 1;
    var front := history[..n];
    var before := PhaseOf(cfg, front);
    VerifyStep(cfg, before, AttachFlag(front), history[n]);
    if (before.Ready? || before.Waiting?) && before.step.FccVerify? {
      ChallengeHeard(cfg, front);
      var j :| RepliedAt(cfg, front, j, FccChallenge) && FirstInts(front[j].message.content, 2)
               && before.step.answer == cfg.unlock(front[j].message.content[1].value);
      assert front[..j] == history[..j] && RepliedAt(cfg, history, j, FccChallenge);
    } else {
      assert RepliedAt(cfg, history, n, FccChallenge);
    }
  }

  lemma {:induction false} VerifyStep(cfg: Config, before: Phase, allowed: bool, act: Act)
    requires act.Heard? ==> Genuine(act.message)
    requires var p := Next(cfg, before, allowed, act); (p.Ready? || p.Waiting?) && p.step.FccVerify?
    ensures var p := Next(cfg, before, allowed, act);
            if (before.Ready? || before.Waiting?) && before.step.FccVerify? then p.step == before.step
            else
              && before == Waiting(FccChallenge) && act.Heard? && act.message.kind.Response?
              && FirstInts(act.message.content, 2) && p.step.answer == cfg.unlock(act.message.content[1].value)
  {
    hide Genuine, FirstInts, Unpacked;
    if act.Heard? {
      ChallengeDecision(cfg, act.message);
    }
  }

  /** The answer sent is the digest of the challenge heard. */
  lemma {:induction false} AnswerIsToChallenge(cfg: Config, history: seq<Act>, i: nat)
    requires Follows(cfg, history) && i < |history| && AllGenuine(history[..i])
    requires history[i].Issued? && history[i].request.cmd == 0x192
    ensures exists j :: RepliedAt(cfg, history[..i], j, FccChallenge) && FirstInts(history[j].message.content, 2)
                        && history[i].request.body == AsnInt(cfg.unlock(history[j].message.content[1].value))
  {
    hide FirstInts, Genuine, AsnInt;
    PrefixFollows(cfg, history, i + 1);
    assert history[..i + 1] == history[..i] + [history[i]];
    PhaseSnoc(cfg, history[..i], history[i]);
    VerifyPhase(cfg, PhaseOf(cfg, history[..i]), AttachFlag(history[..i]), history[i].request);
    ChallengeHeard(cfg, history[..i]);
  }

  lemma {:induction false} VerifyPhase(cfg: Config, before: Phase, allowed: bool, r: Request)
    requires r.cmd == 0x192 && !Next(cfg, before, allowed, Issued(r)).Astray?
    ensures before.Ready? && before.step.FccVerify? && r.body == AsnInt(before.step.answer)
  {
  }

  /** The connect reply a data-channel request is waiting to be spliced with. */
  lemma {:induction false} ConnectHeard(cfg: Config, history: seq<Act>)
    requires var p := PhaseOf(cfg, history); (p.Ready? || p.Waiting?) && p.step.DataChannel?
    ensures exists j :: RepliedAt(cfg, history, j, PsConnect)
                        && history[j].message.body == PhaseOf(cfg, history).step.connect
    decreases |history|
  {
    hide Answered, IsRequest;
    assert history != [];
    var n := |history| - 1;
    var front := history[..n];
    var before := PhaseOf(cfg, front);
    ChannelStep(cfg, before, AttachFlag(front), history[n]);
    if (before.Ready? || before.Waiting?) && before.step.DataChannel? {
      ConnectHeard(cfg, front);
      var j :| RepliedAt(cfg, front, j, PsConnect) && front[j].message.body == before.step.connect;
      assert front[..j] == history[..j] && RepliedAt(cfg, history, j, PsConnect);
    } else {
      assert RepliedAt(cfg, history, n, PsConnect);
    }
  }

  lemma {:induction false} ChannelStep(cfg: Config, before: Phase, allowed: bool, act: Act)
    requires var p := Next(cfg, before, allowed, act); (p.Ready? || p.Waiting?) && p.step.DataChannel?
    ensures var p := Next(cfg, before, allowed, act);
            if (before.Ready? || before.Waiting?) && before.step.DataChannel? then p.step == before.step
            else before == Waiting(PsConnect) && act.Heard? && act.message.kind.Response? && act.message.body == p.step.connect
  {
  }

  /** A setup payload is the splice of the connect reply and, later, the channel reply. */
  ghost predicate SplicedFrom(cfg: Config, history: seq<Act>, j: int, k: int, payload: seq<byte>) {
    && RepliedAt(cfg, history, j, PsConnect) && 0 <= k < |history| && j < k
    && history[k].Heard? && history[k].message.kind.Response?
    && PhaseOf(cfg, history[..k]) == Waiting(DataChannel(history[j].message.body))
    && var connect := history[j].message.body;
       |connect| >= 6 && payload == connect[..|connect| - 6] + history[k].message.body + AsnInt(0)
  }

  lemma {:induction false} SetupStep(cfg: Config, before: Phase, allowed: bool, act: Act)
    requires var p := Next(cfg, before, allowed, act); (p.Ready? || p.Waiting?) && p.step.Setup?
    ensures var p := Next(cfg, before, allowed, act);
            if (before.Ready? || before.Waiting?) && before.step.Setup? then p.step == before.step
            else
              && before.Waiting? && before.step.DataChannel? && act.Heard? && act.message.kind.Response?
              && |before.step.connect| >= 6
              && p.step.payload == before.step.connect[..|before.step.connect| - 6] + act.message.body + AsnInt(0)
  {
  }

  lemma {:induction false} SpliceHeard(cfg: Config, history: seq<Act>)
    requires var p := PhaseOf(cfg, history); (p.Ready? || p.Waiting?) && p.step.Setup?
    ensures exists j, k :: SplicedFrom(cfg, history, j, k, PhaseOf(cfg, history).step.payload)
    decreases |history|
  {
    hide Answered, IsRequest, AsnInt;
    assert history != [];
    var n := |history| - 1;
    var front := history[..n];
    var before := PhaseOf(cfg, front);
    SetupStep(cfg, before, AttachFlag(front), history[n]);
    if (before.Ready? || before.Waiting?) && before.step.Setup? {
      SpliceHeard(cfg, front);
      var j, k :| SplicedFrom(cfg, front, j, k, before.step.payload);
      assert front[..j] == history[..j] && front[..k] == history[..k];
      assert SplicedFrom(cfg, history, j, k, before.step.payload);
    } else {
      ConnectHeard(cfg, front);
      var j :| RepliedAt(cfg, front, j, PsConnect) && front[j].message.body == before.step.connect;
      assert front[..j] == history[..j];
      assert SplicedFrom(cfg, history, j, n, PhaseOf(cfg, history).step.payload);
    }
  }

  /** The setup request carries the connect reply less its last 6 bytes, the channel reply and a zero. */
  lemma {:induction false} SetupIsSpliced(cfg: Config, history: seq<Act>, i: nat)
    requires Follows(cfg, history) && i < |history| && history[i].Issued? && history[i].request.cmd == 0x07d
    ensures exists j, k :: SplicedFrom(cfg, history[..i], j, k, history[i].request.body)
  {
    PrefixFollows(cfg, history, i + 1);
    assert history[..i + 1] == history[..i] + [history[i]];
    PhaseSnoc(cfg, history[..i], history[i]);
    IssuedNext(cfg, PhaseOf(cfg, history[..i]), AttachFlag(history[..i]), history[i]);
    SetupPhase(cfg, PhaseOf(cfg, history[..i]), AttachFlag(history[..i]), history[i].request);
    SpliceHeard(cfg, history[..i]);
  }

  lemma {:induction false} SetupPhase(cfg: Config, before: Phase, allowed: bool, r: Request)
    requires r.cmd == 0x07d && !Next(cfg, before, allowed, Issued(r)).Astray?
    ensures before == Ready(Setup(r.body))
  {
  }
}
