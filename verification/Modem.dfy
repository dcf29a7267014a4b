/**
 * The bring-up itself, phase by phase, on a port.  Every phase is proved to follow the automaton
 * of `Bringup`; clocks and the network configuration are parameters.
 */
module Modem {
  import opened Wrappers
  import opened ByteSeqs
  import opened Codec
  import opened Errors
  import opened Framing
  import opened Messages
  import opened Transport
  import opened Bringup
  import opened Endings
  import opened Requests
  import Cursor
  import Pairing
  import Session

  /** Whether the deadline has passed at the `i`th look at the clock; at the last it has. */
  function Expired(clock: seq<bool>, i: nat): bool {
    i >= |clock| || clock[i]
  }

  /** One request of the bring-up: its response, or the error that leaves the step failed. */
  method Ask(cfg: Config, rpc: Rpc, ghost step: Step, cmd: u32, body: seq<byte>, mode: Mode)
    returns (r: Result<Message, Error>)
    requires rpc.Valid() && MayIssue(cfg, rpc.history, step, Request(cmd, body, mode))
    modifies rpc
    ensures rpc.Valid() && old(rpc.history) < rpc.history
    ensures PhaseOf(cfg, rpc.history)
            == if r.Ok? then Answered(cfg, step, r.value) else Failed(step, r.error)
    ensures StepsOf(cfg, rpc.history) == StepsOf(cfg, old(rpc.history)) + [step]
    ensures r.Ok? ==> JustReplied(cfg, rpc.history, step, r.value.body)
    ensures HaltsUnless(cfg, rpc.history, step, r)
    ensures r.Err? ==> r.error.ExitCode() == 1
  {
    hide PhaseOf, StepsOf, Answered, Failed, MayIssue, HaltsUnless, JustReplied, Rpc.Valid;
    ghost var before := rpc.history;
    ghost var skipped;
    r, skipped := rpc.Execute(cmd, body, mode);
    PhaseAfterExchange(cfg, before, step, Request(cmd, body, mode), skipped, r);
    ExchangeHalts(cfg, before, step, Request(cmd, body, mode), skipped, r);
  }

  /** When an exchange stops the run, this is why: its own failure, or what there is to object to. */
  ghost predicate HaltsUnless(cfg: Config, history: seq<Act>, step: Step, r: Result<Message, Error>) {
    PhaseOf(cfg, history) == Stopped ==>
      && (r.Err? ==> HaltedFor(cfg, history, step, r.error))
      && (r.Ok? && Objection(step, r.value).Some? ==> HaltedFor(cfg, history, step, Objection(step, r.value).value))
  }

  /** Stopped for a reason, and early when the step is. */
  ghost predicate HaltedFor(cfg: Config, history: seq<Act>, step: Step, e: Error) {
    Halted(cfg, history, e) && (Rank(step) < Rank(Step.PsConnect) ==> HaltedEarly(cfg, history, e))
  }

  lemma {:induction false} ExchangeHalts(cfg: Config, before: seq<Act>, step: Step, request: Request,
                                         skipped: seq<Message>, r: Result<Message, Error>)
    requires MayIssue(cfg, before, step, request)
    requires forall i :: 0 <= i < |skipped| ==> !skipped[i].kind.Response?
    requires r.Ok? ==> r.value.kind.Response?
    ensures HaltsUnless(cfg, before + [Issued(request)] + Receipts(skipped) + [Outcome(r)], step, r)
  {
    hide Objection, MayIssue;
    var waited := before + [Issued(request)] + Receipts(skipped);
    WaitsAfterExchange(cfg, before, step, request, skipped);
    assert (waited + [Outcome(r)])[..|waited|] == waited;
  }

  /** A single act that stops the run, with its reason. */
  lemma {:induction false} ActHalts(cfg: Config, before: seq<Act>, act: Act, e: Error)
    requires Early(PhaseOf(cfg, before)) && PhaseOf(cfg, before + [act]) == Stopped && Explained(PhaseOf(cfg, before), act, e)
    ensures HaltedEarly(cfg, before + [act], e)
  {
    hide PhaseOf, Explained, Early;
    assert (before + [act])[..|before|] == before;
  }

  /** `looks` looks at a clock were needed: none but the last may have found the deadline passed. */
  ghost predicate Looked(clock: seq<bool>, looks: nat) {
    looks > 0 && forall j :: 0 <= j < looks - 1 ==> !Expired(clock, j)
  }

  /** Probe until the firmware answers, resetting the channel between attempts. */
  method WaitReady(cfg: Config, rpc: Rpc, clock: seq<bool>) returns (r: Result<(), Error>, ghost attempts: nat)
    requires rpc.Valid() && PhaseOf(cfg, rpc.history) == Ready(Probe)
    modifies rpc
    ensures rpc.Valid() && old(rpc.history) <= rpc.history
    ensures r.Ok? ==> PhaseOf(cfg, rpc.history) == Ready(Init(0))
    ensures r.Err? ==> PhaseOf(cfg, rpc.history) == (if r.error.Timeout? then ProbeTimedOut else Stopped)
    ensures r.Err? && !r.error.Timeout? ==> HaltedEarly(cfg, rpc.history, r.error)
    ensures r.Err? ==> r.error.ExitCode() == 1
    ensures |StepsOf(cfg, rpc.history)| == |StepsOf(cfg, old(rpc.history))| + attempts && Looked(clock, attempts)
    ensures r == Err(Timeout) ==> Expired(clock, attempts - 1)
  {
    hide PhaseOf, StepsOf, Halted, HaltedEarly, Rpc.Valid;
    var i := 0;
    while true
      invariant rpc.Valid() && PhaseOf(cfg, rpc.history) == Ready(Probe) && old(rpc.history) <= rpc.history
      invariant |StepsOf(cfg, rpc.history)| == |StepsOf(cfg, old(rpc.history))| + i
      invariant 0 <= i <= |clock| && forall j :: 0 <= j < i ==> !Expired(clock, j)
      decreases |clock| - i
    {
      var response := Ask(cfg, rpc, Probe, 0x18e, cfg.bodies.zero, Async);
      attempts := i + 1;
      if response.Ok? {
        return Ok(()), attempts;
      }
      if response.error != Timeout || Expired(clock, i) {
        return Err(response.error), attempts;
      }
      i := i + 1;
      ghost var before := rpc.history;
      AfterReset(cfg, before);
      var reset := rpc.Reopen();
      if reset.Err? {
        ActHalts(cfg, before, Lost(Io), Io);
        return Err(reset.error), attempts;
      }
    }
  }

  /** A reopening, successful or not, after a probe that timed out. */
  lemma {:induction false} AfterReset(cfg: Config, history: seq<Act>)
    requires PhaseOf(cfg, history).ProbeTimedOut?
    ensures PhaseOf(cfg, history + [Reopened]) == Ready(Probe)
    ensures PhaseOf(cfg, history + [Lost(Io)]) == Stopped
    ensures StepsOf(cfg, history + [Reopened]) == StepsOf(cfg, history + [Lost(Io)]) == StepsOf(cfg, history)
  {
    PhaseSnoc(cfg, history, Reopened);
    PhaseSnoc(cfg, history, Lost(Io));
    StepsSnoc(cfg, history, Reopened);
    StepsSnoc(cfg, history, Lost(Io));
  }

  /** Initialise every firmware subsystem. */
  method Initialize(cfg: Config, rpc: Rpc) returns (r: Result<(), Error>)
    requires rpc.Valid() && PhaseOf(cfg, rpc.history) == Ready(Init(0))
    modifies rpc
    ensures rpc.Valid() && old(rpc.history) <= rpc.history
    ensures PhaseOf(cfg, rpc.history) == if r.Ok? then Ready(FccQuery) else Stopped
    ensures r.Err? ==> HaltedEarly(cfg, rpc.history, r.error)
    ensures r.Err? ==> r.error.ExitCode() == 1
  {
    hide PhaseOf, StepsOf, Halted, HaltedEarly, Rpc.Valid;
    for k := 0 to 7
      invariant rpc.Valid() && old(rpc.history) <= rpc.history
      invariant PhaseOf(cfg, rpc.history) == if k < 7 then Ready(Init(k)) else Ready(FccQuery)
    {
      var response := Ask(cfg, rpc, Init(k), INIT_COMMANDS[k], cfg.bodies.zero, Sync);
      if response.Err? {
        return Err(response.error);
      }
    }
    r := Ok(());
  }

  /** An integer at a position, or the complaint that there is none. */
  function IntOr(values: seq<Value>, i: nat): Result<u32, Error> {
    if IntAt(values, i).Some? then Ok(IntAt(values, i).value) else Err(Protocol(NotAnInteger(i)))
  }

  /** Unpack a reply. */
  method UnpackReply(fmt: string, body: seq<byte>) returns (r: Result<seq<Value>, Error>)
    ensures match Unpacked(fmt, body)
            case Ok(values) => r == Ok(values)
            case Err(e) => r == Err(CodecFailure(e))
  {
    var values := Cursor.Unpack(fmt, body);
    r := if values.Ok? then Ok(values.value) else Err(CodecFailure(values.error));
  }

  /** Unlock the radio if it is locked. */
  method FccUnlock(cfg: Config, rpc: Rpc) returns (r: Result<(), Error>)
    requires rpc.Valid() && PhaseOf(cfg, rpc.history) == Ready(FccQuery)
    modifies rpc
    ensures rpc.Valid() && old(rpc.history) <= rpc.history
    ensures PhaseOf(cfg, rpc.history) == if r.Ok? then Ready(SetMode) else Stopped
    ensures r.Err? ==> HaltedEarly(cfg, rpc.history, r.error)
    ensures r.Err? ==> r.error.ExitCode() == 1
  {
    hide PhaseOf, StepsOf, Halted, HaltedEarly, Rpc.Valid, Unpacked;
    var response :- Ask(cfg, rpc, FccQuery, 0x18e, cfg.bodies.zero, Async);
    var values :- UnpackReply("nnn", response.body);
    var state :- IntOr(values, 1);
    var mode :- IntOr(values, 2);
    if mode == 0 || state != 0 {
      return Ok(());
    }
    r := AnswerChallenge(cfg, rpc);
  }

  /** The part of `FccUnlock` for a locked radio. */
  method AnswerChallenge(cfg: Config, rpc: Rpc) returns (r: Result<(), Error>)
    requires rpc.Valid() && PhaseOf(cfg, rpc.history) == Ready(FccChallenge)
    modifies rpc
    ensures rpc.Valid() && old(rpc.history) <= rpc.history
    ensures PhaseOf(cfg, rpc.history) == if r.Ok? then Ready(SetMode) else Stopped
    ensures r.Err? ==> HaltedEarly(cfg, rpc.history, r.error)
    ensures r.Err? ==> r.error.ExitCode() == 1
  {
    hide PhaseOf, StepsOf, Halted, HaltedEarly, Rpc.Valid, Unpacked;
    var response :- Ask(cfg, rpc, FccChallenge, 0x190, cfg.bodies.zero, Async);
    var values :- UnpackReply("nn", response.body);
    var challenge :- IntOr(values, 1);
    r := SendAnswer(cfg, rpc, cfg.Answer(challenge));
  }

  method SendAnswer(cfg: Config, rpc: Rpc, answer: u32) returns (r: Result<(), Error>)
    requires rpc.Valid() && PhaseOf(cfg, rpc.history) == Ready(FccVerify(answer))
    modifies rpc
    ensures rpc.Valid() && old(rpc.history) <= rpc.history
    ensures PhaseOf(cfg, rpc.history) == if r.Ok? then Ready(SetMode) else Stopped
    ensures r.Err? ==> HaltedEarly(cfg, rpc.history, r.error)
    ensures r.Err? ==> r.error.ExitCode() == 1
  {
    hide PhaseOf, StepsOf, Halted, HaltedEarly, Rpc.Valid, Unpacked;
    var response :- Ask(cfg, rpc, FccVerify(answer), 0x192, AsnInt(answer), Async);
    var values :- UnpackReply("n", response.body);
    var verdict :- IntOr(values, 0);
    if verdict != 1 {
      return Err(Error.FccUnlock);
    }
    r := Ok(());
  }

  /** Switch the radio on, and wait for the indication that says so. */
  method EnableRadio(cfg: Config, rpc: Rpc) returns (r: Result<(), Error>)
    requires rpc.Valid() && PhaseOf(cfg, rpc.history) == Ready(SetMode)
    modifies rpc
    ensures rpc.Valid() && old(rpc.history) <= rpc.history
    ensures PhaseOf(cfg, rpc.history) == if r.Ok? then Ready(Version) else Stopped
    ensures r.Err? ==> HaltedEarly(cfg, rpc.history, r.error)
    ensures r.Err? ==> r.error.ExitCode() == 1
  {
    hide PhaseOf, StepsOf, Halted, HaltedEarly, Rpc.Valid;
    var response :- Ask(cfg, rpc, SetMode, 0x12f, cfg.bodies.modeSet, Sync);
    var status :- IntOr(response.content, 0);
    if status != 0 {
      return Err(Protocol(ModeRejected));
    }
    r := AwaitMode(cfg, rpc);
  }

  /** The part of `EnableRadio` that waits for the mode to be confirmed. */
  method AwaitMode(cfg: Config, rpc: Rpc) returns (r: Result<(), Error>)
    requires rpc.Valid() && PhaseOf(cfg, rpc.history) == ModePending
    modifies rpc
    ensures rpc.Valid() && old(rpc.history) <= rpc.history
    ensures PhaseOf(cfg, rpc.history) == if r.Ok? then Ready(Version) else Stopped
    ensures r.Err? ==> HaltedEarly(cfg, rpc.history, r.error)
    ensures r.Err? ==> r.error.ExitCode() == 1
  {
    hide PhaseOf, StepsOf, Halted, HaltedEarly, Rpc.Valid;
    while true
      invariant rpc.Valid() && PhaseOf(cfg, rpc.history) == ModePending && old(rpc.history) <= rpc.history
      decreases |rpc.inbuf| + |DataOf(rpc.port.events)|
    {
      ghost var before := rpc.history;
      var message := rpc.Recv();
      PhaseSnoc(cfg, before, Outcome(message));
      if message.Err? {
        ActHalts(cfg, before, Lost(message.error), message.error);
        return Err(message.error);
      }
      if message.value.code == UTA_MODE_SET_RSP_CB {
        if ModeObjection(message.value.content, 1, ModeNotSet).Some? {
          ActHalts(cfg, before, Heard(message.value), ModeObjection(message.value.content, 1, ModeNotSet).value);
        }
        var mode :- IntOr(message.value.content, 0);
        if mode != 1 {
          return Err(Protocol(ModeNotSet));
        }
        return Ok(());
      }
    }
  }

  /** Read the firmware version; the caller ignores a failure. */
  method FirmwareVersion(cfg: Config, rpc: Rpc) returns (r: Result<seq<byte>, Error>)
    requires rpc.Valid() && PhaseOf(cfg, rpc.history) == Ready(Version)
    modifies rpc
    ensures rpc.Valid() && old(rpc.history) <= rpc.history && PhaseOf(cfg, rpc.history) == Ready(ApnConfig)
    ensures r.Ok? ==> exists body :: JustReplied(cfg, rpc.history, Version, body) && ParsedSysInfo(body) == Ok(r.value)
  {
    hide PhaseOf, StepsOf, Halted, HaltedEarly, Rpc.Valid;
    var response := Ask(cfg, rpc, Version, 0x07c, cfg.bodies.sysInfo, Sync);
    if response.Err? {
      return Err(response.error);
    }
    var info := ParsedSysInfo(response.value.body);
    r := if info.Ok? then Ok(info.value) else Err(CodecFailure(info.error));
  }

  /** One attach request and the status it comes back with. */
  method AttachStatus(cfg: Config, rpc: Rpc, ghost step: Step) returns (r: Result<u32, Error>)
    requires rpc.Valid()
    requires (step.Attach? && PhaseOf(cfg, rpc.history) == Ready(Attach))
             || (step.AttachAgain? && PhaseOf(cfg, rpc.history).AttachPending? && AttachFlag(rpc.history))
    modifies rpc
    ensures rpc.Valid() && old(rpc.history) <= rpc.history
    ensures PhaseOf(cfg, rpc.history)
            == if r.Err? then Stopped
               else if r.value != REFUSED then Ready(AskIp)
               else if step.Attach? then AttachPending else Bringup.Refused
    ensures r.Err? ==> HaltedEarly(cfg, rpc.history, r.error)
    ensures r.Err? ==> r.error.ExitCode() == 1
  {
    hide PhaseOf, StepsOf, Halted, HaltedEarly, Rpc.Valid, Unpacked;
    var response :- Ask(cfg, rpc, step, 0x05c, cfg.bodies.netAttach, Async);
    var values :- UnpackReply("nn", response.body);
    r := IntOr(values, 1);
  }

  /** The APN does not encode, at its place in the run. */
  ghost predicate ApnRejected(cfg: Config, history: seq<Act>, e: Error) {
    PhaseOf(cfg, history) == Ready(ApnConfig) && cfg.bodies.apnConfig.Err? && e == CodecFailure(cfg.bodies.apnConfig.error)
  }

  /** Configure the APN and attach; false when the network refuses twice. */
  method AttachNetwork(cfg: Config, rpc: Rpc) returns (r: Result<bool, Error>)
    requires rpc.Valid() && PhaseOf(cfg, rpc.history) == Ready(ApnConfig)
    modifies rpc
    ensures rpc.Valid() && old(rpc.history) <= rpc.history
    ensures r == Ok(true) ==> PhaseOf(cfg, rpc.history) == Ready(AskIp)
    ensures r == Ok(false) ==> PhaseOf(cfg, rpc.history) == Bringup.Refused
    ensures r.Err? ==> HaltedEarly(cfg, rpc.history, r.error) || ApnRejected(cfg, rpc.history, r.error)
    ensures r.Err? ==> r.error.ExitCode() == 1
  {
    hide PhaseOf, StepsOf, Halted, HaltedEarly, Rpc.Valid;
    var config := cfg.bodies.apnConfig;
    if config.Err? {
      return Err(CodecFailure(config.error));
    }
    var _ :- Ask(cfg, rpc, ApnConfig, 0x1af, config.value, Async);
    var status :- AttachStatus(cfg, rpc, Attach);
    if status == REFUSED {
      var _ :- AwaitAttachAllowed(cfg, rpc);
      status :- AttachStatus(cfg, rpc, AttachAgain);
    }
    r := Ok(status != REFUSED);
  }

  /** Receive until the firmware indicates that an attach is allowed. */
  method AwaitAttachAllowed(cfg: Config, rpc: Rpc) returns (r: Result<(), Error>)
    requires rpc.Valid() && PhaseOf(cfg, rpc.history) == AttachPending
    modifies rpc
    ensures rpc.Valid() && old(rpc.history) <= rpc.history
    ensures PhaseOf(cfg, rpc.history) == if r.Ok? then AttachPending else Stopped
    ensures r.Ok? ==> AttachFlag(rpc.history)
    ensures r.Err? ==> HaltedEarly(cfg, rpc.history, r.error)
    ensures r.Err? ==> r.error.ExitCode() == 1
  {
    while !rpc.attachAllowed
      invariant rpc.Valid() && PhaseOf(cfg, rpc.history) == AttachPending && old(rpc.history) <= rpc.history
      decreases |rpc.inbuf| + |DataOf(rpc.port.events)|
    {
      ghost var before := rpc.history;
      var message := rpc.Recv();
      PhaseSnoc(cfg, before, Outcome(message));
      if message.Err? {
        ActHalts(cfg, before, Lost(message.error), message.error);
        return Err(message.error);
      }
    }
    r := Ok(());
  }

  /** `r` is the last assigned address of `addresses`, if there is one. */
  ghost predicate IsLastAssigned(addresses: seq<Ipv4>, r: Option<Ipv4>) {
    match r
    case None => !HasAddress(addresses)
    case Some(a) =>
      a != UNSPECIFIED &&
      exists k :: 0 <= k < |addresses| && addresses[k] == a
                  && forall j :: k < j < |addresses| ==> addresses[j] == UNSPECIFIED
  }

  /** The last candidate that is assigned. */
  method LastAssigned(addresses: seq<Ipv4>) returns (r: Option<Ipv4>)
    ensures IsLastAssigned(addresses, r)
    ensures r.Some? <==> HasAddress(addresses)
  {
    var i := |addresses|;
    while i > 0
      invariant 0 <= i <= |addresses|
      invariant forall j :: i <= j < |addresses| ==> addresses[j] == UNSPECIFIED
    {
      i := i - 1;
      if addresses[i] != UNSPECIFIED {
        return Some(addresses[i]);
      }
    }
    r := None;
  }

  /** The last assigned candidate of a reply. */
  method AddressIn(body: seq<byte>) returns (r: Result<Option<Ipv4>, Error>)
    ensures r.Ok? <==> ParsedNegIp(body).Ok?
    ensures r.Ok? ==> IsLastAssigned(ParsedNegIp(body).value, r.value)
    ensures r.Ok? ==> (r.value.Some? <==> HasAddress(ParsedNegIp(body).value))
    ensures r.Err? ==> ParsedNegIp(body).Err? && r.error == CodecFailure(ParsedNegIp(body).error)
  {
    var addresses := ParsedNegIp(body);
    if addresses.Err? {
      return Err(CodecFailure(addresses.error));
    }
    var address := LastAssigned(addresses.value);
    r := Ok(address);
  }

  /** The reply to an address query. */
  method AskAddress(cfg: Config, rpc: Rpc) returns (r: Result<seq<byte>, Error>)
    requires rpc.Valid() && PhaseOf(cfg, rpc.history) == Ready(AskIp)
    modifies rpc
    ensures rpc.Valid() && old(rpc.history) < rpc.history
    ensures StepsOf(cfg, rpc.history) == StepsOf(cfg, old(rpc.history)) + [AskIp]
    ensures r.Ok? ==> JustReplied(cfg, rpc.history, AskIp, r.value)
    ensures PhaseOf(cfg, rpc.history)
            == if r.Ok? && ParsedNegIp(r.value).Ok? then Ready(AskDns(HasAddress(ParsedNegIp(r.value).value)))
               else Stopped
    ensures r.Err? ==> HaltedEarly(cfg, rpc.history, r.error)
    ensures r.Ok? && ParsedNegIp(r.value).Err? ==> HaltedEarly(cfg, rpc.history, CodecFailure(ParsedNegIp(r.value).error))
    ensures r.Err? ==> r.error.ExitCode() == 1
  {
    hide PhaseOf, StepsOf, Halted, HaltedEarly, Rpc.Valid;
    var response := Ask(cfg, rpc, AskIp, 0x049, cfg.bodies.negIp, Async);
    if response.Err? {
      return Err(response.error);
    }
    r := Ok(response.value.body);
  }

  /** The address in a reply, if any: the last candidate that is assigned. */
  ghost predicate AddressReply(body: seq<byte>, address: Option<Ipv4>) {
    ParsedNegIp(body).Ok? && IsLastAssigned(ParsedNegIp(body).value, address)
  }

  /** Ask for the address; `None` when no candidate of the reply is assigned yet. */
  method QueryAddress(cfg: Config, rpc: Rpc) returns (r: Result<Option<Ipv4>, Error>, ghost reply: seq<byte>)
    requires rpc.Valid() && PhaseOf(cfg, rpc.history) == Ready(AskIp)
    modifies rpc
    ensures rpc.Valid() && old(rpc.history) < rpc.history
    ensures StepsOf(cfg, rpc.history) == StepsOf(cfg, old(rpc.history)) + [AskIp]
    ensures PhaseOf(cfg, rpc.history) == if r.Err? then Stopped else Ready(AskDns(r.value.Some?))
    ensures r.Ok? ==> JustReplied(cfg, rpc.history, AskIp, reply) && AddressReply(reply, r.value)
    ensures r.Err? ==> HaltedEarly(cfg, rpc.history, r.error)
    ensures r.Err? ==> r.error.ExitCode() == 1
  {
    hide PhaseOf, StepsOf, Halted, HaltedEarly, Rpc.Valid;
    var body := AskAddress(cfg, rpc);
    if body.Err? {
      return Err(body.error), [];
    }
    reply := body.value;
    r := AddressIn(body.value);
  }

  /** The servers a reply carries in its 16 slots. */
  ghost predicate DnsReply(body: seq<byte>, servers: DnsServers) {
    var values := Unpacked(DnsFormat(), body);
    && values.Ok? && HasSlots(values.value)
    && servers == DnsServers(V4Slots(values.value, 16), V6Slots(values.value, 16))
  }

  /** Ask for the name servers. */
  method QueryServers(cfg: Config, rpc: Rpc, ghost found: bool)
    returns (r: Result<DnsServers, Error>, ghost reply: seq<byte>)
    requires rpc.Valid() && PhaseOf(cfg, rpc.history) == Ready(AskDns(found))
    modifies rpc
    ensures rpc.Valid() && old(rpc.history) <= rpc.history
    ensures StepsOf(cfg, rpc.history) == StepsOf(cfg, old(rpc.history)) + [AskDns(found)]
    ensures PhaseOf(cfg, rpc.history)
            == if r.Err? then Stopped else if found then Ready(Step.PsConnect) else Ready(AskIp)
    ensures r.Ok? ==> JustReplied(cfg, rpc.history, AskDns(found), reply) && DnsReply(reply, r.value)
    ensures r.Err? ==> HaltedEarly(cfg, rpc.history, r.error)
    ensures r.Err? ==> r.error.ExitCode() == 1
  {
    hide PhaseOf, StepsOf, Halted, HaltedEarly, Rpc.Valid;
    var response := Ask(cfg, rpc, AskDns(found), 0x047, cfg.bodies.negDns, Async);
    if response.Err? {
      return Err(response.error), [];
    }
    reply := response.value.body;
    var dns := ParseDns(response.value.body);
    r := if dns.Ok? then Ok(dns.value) else Err(CodecFailure(dns.error));
  }

  /**
   * A poll went down in a history: the reply to an address query at `i`, with its last assigned
   * address if it has one, and later the reply to a name-server query at `j`, with the servers.
   */
  ghost predicate PolledAt(cfg: Config, history: seq<Act>, i: int, j: int, r: Option<(Ipv4, DnsServers)>) {
    && i < j && RepliedAt(cfg, history, i, AskIp) && RepliedAt(cfg, history, j, AskDns(r.Some?))
    && AddressReply(history[i].message.body, if r.Some? then Some(r.value.0) else None)
    && (r.Some? ==> DnsReply(history[j].message.body, r.value.1))
  }

  /** The history ends in a poll, begun after its first `since` acts, that found what `r` says. */
  ghost predicate Polled(cfg: Config, history: seq<Act>, since: nat, r: Option<(Ipv4, DnsServers)>) {
    exists i, j :: since <= i && j == |history| - 1 && PolledAt(cfg, history, i, j, r)
  }

  lemma {:induction false} PolledSince(cfg: Config, history: seq<Act>, since: nat, earlier: nat, r: Option<(Ipv4, DnsServers)>)
    requires Polled(cfg, history, since, r) && earlier <= since
    ensures Polled(cfg, history, earlier, r)
  {
  }

  /** A reply stays where it is in every longer history. */
  lemma {:induction false} RepliedPersists(cfg: Config, history: seq<Act>, longer: seq<Act>, i: int, step: Step)
    requires RepliedAt(cfg, history, i, step) && history <= longer
    ensures RepliedAt(cfg, longer, i, step) && longer[i] == history[i]
  {
    assert longer[..i] == history[..i];
  }

  /** Ask once for the address and the name servers; the servers are asked for even without an address. */
  method QueryIp(cfg: Config, rpc: Rpc) returns (r: Result<Option<(Ipv4, DnsServers)>, Error>)
    requires rpc.Valid() && PhaseOf(cfg, rpc.history) == Ready(AskIp)
    modifies rpc
    ensures rpc.Valid() && old(rpc.history) <= rpc.history
    ensures PhaseOf(cfg, rpc.history)
            == if r.Err? then Stopped else if r.value.Some? then Ready(Step.PsConnect) else Ready(AskIp)
    ensures r.Ok? ==> |StepsOf(cfg, rpc.history)| == |StepsOf(cfg, old(rpc.history))| + 2
    ensures r.Ok? ==> Polled(cfg, rpc.history, |old(rpc.history)|, r.value)
    ensures r.Err? ==> HaltedEarly(cfg, rpc.history, r.error)
    ensures r.Err? ==> r.error.ExitCode() == 1
  {
    hide PhaseOf, StepsOf, Halted, HaltedEarly, Rpc.Valid, AddressReply, DnsReply;
    var address;
    ghost var ipReply, dnsReply;
    address, ipReply := QueryAddress(cfg, rpc);
    if address.Err? {
      return Err(address.error);
    }
    ghost var asked := rpc.history;
    var dns;
    dns, dnsReply := QueryServers(cfg, rpc, address.value.Some?);
    if dns.Err? {
      return Err(dns.error);
    }
    r := Ok(if address.value.Some? then Some((address.value.value, dns.value)) else None);
    RepliedPersists(cfg, asked, rpc.history, |asked| - 1, AskIp);
    assert PolledAt(cfg, rpc.history, |asked| - 1, |rpc.history| - 1, r.value);
  }

  /** Poll for an address until the deadline. */
  method WaitForIp(cfg: Config, rpc: Rpc, clock: seq<bool>)
    returns (r: Result<Option<(Ipv4, DnsServers)>, Error>, ghost polls: nat)
    requires rpc.Valid() && PhaseOf(cfg, rpc.history) == Ready(AskIp)
    modifies rpc
    ensures rpc.Valid() && old(rpc.history) <= rpc.history
    ensures PhaseOf(cfg, rpc.history)
            == if r.Err? then Stopped else if r.value.Some? then Ready(Step.PsConnect) else Ready(AskIp)
    ensures r.Ok? ==> |StepsOf(cfg, rpc.history)| == |StepsOf(cfg, old(rpc.history))| + 2 * polls
    ensures r.Ok? ==> Polled(cfg, rpc.history, |old(rpc.history)|, r.value)
    ensures Looked(clock, polls) && (r == Ok(None) ==> Expired(clock, polls - 1))
    ensures r.Err? ==> HaltedEarly(cfg, rpc.history, r.error)
    ensures r.Err? ==> r.error.ExitCode() == 1
  {
    hide PhaseOf, StepsOf, Halted, HaltedEarly, Rpc.Valid, Polled;
    var i := 0;
    while true
      invariant rpc.Valid() && PhaseOf(cfg, rpc.history) == Ready(AskIp) && old(rpc.history) <= rpc.history
      invariant |StepsOf(cfg, rpc.history)| == |StepsOf(cfg, old(rpc.history))| + 2 * i
      invariant 0 <= i <= |clock| && forall j :: 0 <= j < i ==> !Expired(clock, j)
      decreases |clock| - i
    {
      polls := i + 1;
      ghost var since := |rpc.history|;
      r := QueryIp(cfg, rpc);
      if r.Ok? {
        PolledSince(cfg, rpc.history, since, |old(rpc.history)|, r.value);
      }
      if r.Err? || r.value.Some? {
        return;
      }
      if Expired(clock, i) {
        return Ok(None), polls;
      }
      i := i + 1;
    }
  }

  /** Open the packet-switched data channel. */
  method OpenDataChannel(cfg: Config, rpc: Rpc) returns (r: Result<(), Error>)
    requires rpc.Valid() && PhaseOf(cfg, rpc.history) == Ready(Step.PsConnect)
    modifies rpc
    ensures rpc.Valid() && old(rpc.history) <= rpc.history
    ensures r.Ok? ==> PhaseOf(cfg, rpc.history) == Up
    ensures r.Err? ==> Halted(cfg, rpc.history, r.error) || PathRejected(cfg, rpc.history, r.error)
    ensures r.Err? ==> r.error.ExitCode() == 1
  {
    hide PhaseOf, StepsOf, Halted, HaltedEarly, Rpc.Valid;
    var connect :- Ask(cfg, rpc, Step.PsConnect, 0x051, cfg.bodies.psConnect, Async);
    r := ConnectChannel(cfg, rpc, connect.body);
  }

  /** The path does not encode, at its place in the run. */
  ghost predicate PathRejected(cfg: Config, history: seq<Act>, e: Error) {
    var phase := PhaseOf(cfg, history);
    phase.Ready? && phase.step.DataChannel? && cfg.bodies.path.Err? && e == CodecFailure(cfg.bodies.path.error)
  }

  /** The part of `OpenDataChannel` behind the connect reply. */
  method ConnectChannel(cfg: Config, rpc: Rpc, connect: seq<byte>) returns (r: Result<(), Error>)
    requires rpc.Valid() && PhaseOf(cfg, rpc.history) == Ready(DataChannel(connect))
    modifies rpc
    ensures rpc.Valid() && old(rpc.history) <= rpc.history
    ensures PhaseOf(cfg, rpc.history)
            == if r.Ok? then Up else if cfg.bodies.path.Err? then Ready(DataChannel(connect)) else Stopped
    ensures r.Err? ==> Halted(cfg, rpc.history, r.error) || PathRejected(cfg, rpc.history, r.error)
    ensures r.Err? ==> r.error.ExitCode() == 1
  {
    hide PhaseOf, StepsOf, Halted, HaltedEarly, Rpc.Valid;
    var path := cfg.bodies.path;
    if path.Err? {
      return Err(CodecFailure(path.error));
    }
    var channel :- Ask(cfg, rpc, DataChannel(connect), 0x07e, path.value, Sync);
    r := SetUp(cfg, rpc, connect, channel.body);
  }

  /** The last request of the bring-up, made of the two replies before it. */
  method SetUp(cfg: Config, rpc: Rpc, connect: seq<byte>, channel: seq<byte>) returns (r: Result<(), Error>)
    requires rpc.Valid()
    requires |connect| < 6 ==> Halted(cfg, rpc.history, Protocol(ShortConnectReply))
    requires PhaseOf(cfg, rpc.history)
             == if |connect| < 6 then Stopped else Ready(Setup(Splice(connect, channel)))
    modifies rpc
    ensures rpc.Valid() && old(rpc.history) <= rpc.history
    ensures r.Err? ==> Halted(cfg, rpc.history, r.error)
    ensures PhaseOf(cfg, rpc.history) == if r.Ok? then Up else Stopped
    ensures r.Err? ==> r.error.ExitCode() == 1
  {
    hide PhaseOf, StepsOf, Halted, HaltedEarly, Rpc.Valid;
    if |connect| < 6 {
      return Err(Protocol(ShortConnectReply));
    }
    var setup := connect[..|connect| - 6];
    setup := setup + channel;
    setup := setup + AsnInt(0);
    var _ :- Ask(cfg, rpc, Setup(setup), 0x07d, setup, Sync);
    r := Ok(());
  }

  /** Where the network was configured: the address and servers are those of a poll in the history. */
  ghost predicate Configured(cfg: Config, history: seq<Act>, found: (Ipv4, DnsServers)) {
    exists i, j :: PolledAt(cfg, history, i, j, Some(found))
  }

  /** What the outcome of a run says about its history, and its history about the outcome. */
  ghost predicate Completed(cfg: Config, history: seq<Act>, configured: Result<(), Error>, r: Result<(), Error>,
                            found: Option<(Ipv4, DnsServers)>) {
    && Follows(cfg, history)
    && EndsAs(cfg, history, configured, r)
    && (r.Ok? <==> PhaseOf(cfg, history) == Up)
    && (r == Err(AttachRefused) <==> PhaseOf(cfg, history) == Bringup.Refused)
    && (r == Err(NoIp) <==> PhaseOf(cfg, history) == Ready(AskIp))
    && (r.Ok? ==> found.Some? && configured.Ok?)
    && (found.Some? ==> Configured(cfg, history, found.value))
    && (configured.Err? ==> BeforeChannel(history) && (found.Some? ==> r == configured))
  }

  /** A run that succeeds was granted its attach and an address; exit code 2 comes before the data channel. */
  lemma {:induction false} CompletedSays(cfg: Config, history: seq<Act>, configured: Result<(), Error>, r: Result<(), Error>,
                                         found: Option<(Ipv4, DnsServers)>)
    requires Completed(cfg, history, configured, r, found)
    ensures r.Ok? ==> AttachGranted(cfg, history) && AddressAssigned(cfg, history)
    ensures r.Err? && r.error.ExitCode() == 2 ==> BeforeChannel(history)
  {
    hide EndsAs, Configured;
    if r.Ok? {
      DataChannelIsGuarded(cfg, history);
    } else if r.error.ExitCode() == 2 {
      NoDataChannelYet(cfg, history);
    }
  }

  /**
   * The whole run, on the port that was opened, if it was, and with a network that may fail to
   * configure.  Everything said of the history is said of the port: its requests are the packets
   * written, and it is what the operations performed made of the port as it was opened.
   */
  method Run(apn: seq<byte>, path: seq<byte>, unlock: u32 -> u32, rpc: Rpc?,
             readyClock: seq<bool>, ipClock: seq<bool>, configured: Result<(), Error>)
    returns (r: Result<(), Error>, ghost cfg: Config, ghost found: Option<(Ipv4, DnsServers)>)
    requires rpc != null ==> rpc.Valid() && rpc.history == []
    requires configured.Err? ==> configured.error.ExitCode() == 1
    modifies rpc
    ensures cfg == Config(BodiesFor(apn, path), unlock)
    ensures rpc == null ==> r == Err(Io)
    ensures rpc != null ==>
              && rpc.Valid() && AllGenuine(rpc.history)
              && Completed(cfg, rpc.history, configured, r, found)
              && (configured.Err? && found.Some? ==> r == configured)
              && (configured.Err? || (r.Err? && r.error.ExitCode() == 2) ==> BeforeChannel(rpc.history))
              && (r.Ok? ==> AttachGranted(cfg, rpc.history) && AddressAssigned(cfg, rpc.history))
  {
    var config := Config(BodiesFor(apn, path), unlock);
    cfg := config;
    assert PhaseOf(config, []) == Ready(Probe);
    hide PhaseOf, StepsOf, RequestsOf, Rpc.Valid, BodiesFor, EndsAs, Configured, BeforeChannel, AttachGranted, AddressAssigned, AllGenuine;
    if rpc == null {
      return Err(Io), cfg, None;
    }
    r, found := BringUp(config, rpc, readyClock, ipClock, configured);
    CompletedSays(cfg, rpc.history, configured, r, found);
    ValidIsGenuine(rpc);
  }

  lemma {:induction false} ValidIsGenuine(rpc: Rpc)
    requires rpc.Valid()
    ensures AllGenuine(rpc.history)
  {
    HistoryIsGenuine(rpc.given, rpc.ops);
  }

  /** The phases of `Run` on an open port. */
  method BringUp(cfg: Config, rpc: Rpc, readyClock: seq<bool>, ipClock: seq<bool>, configured: Result<(), Error>)
    returns (r: Result<(), Error>, ghost found: Option<(Ipv4, DnsServers)>)
    requires rpc.Valid() && PhaseOf(cfg, rpc.history) == Ready(Probe)
    requires configured.Err? ==> configured.error.ExitCode() == 1
    modifies rpc
    ensures rpc.Valid() && old(rpc.history) <= rpc.history
    ensures Completed(cfg, rpc.history, configured, r, found)
  {
    hide *;
    var ready, _ := WaitReady(cfg, rpc, readyClock);
    if ready.Err? {
      if ready.error.Timeout? {
        TimeoutCompletes(cfg, rpc.history, configured);
      } else {
        HaltCompletes(cfg, rpc.history, configured, ready.error);
      }
      return Err(ready.error), None;
    }
    r := Prepare(cfg, rpc);
    if r.Err? {
      HaltCompletes(cfg, rpc.history, configured, r.error);
      return r, None;
    }
    r, found := ConnectUp(cfg, rpc, ipClock, configured);
  }

  /** A run that was halted early completes with the reason. */
  lemma {:induction false} HaltCompletes(cfg: Config, history: seq<Act>, configured: Result<(), Error>, e: Error)
    requires HaltedEarly(cfg, history, e) && e.ExitCode() == 1
    ensures Completed(cfg, history, configured, Err(e), None)
  {
    HaltedEarlyIsBeforeChannel(cfg, history, e);
    hide PhaseOf, BeforeChannel, Configured, Explained;
  }

  lemma {:induction false} TimeoutCompletes(cfg: Config, history: seq<Act>, configured: Result<(), Error>)
    requires PhaseOf(cfg, history).ProbeTimedOut?
    ensures Completed(cfg, history, configured, Err(Timeout), None)
  {
    hide PhaseOf, BeforeChannel, Configured;
    EarlyIsBeforeChannel(cfg, history);
  }

  /** The phases of `BringUp` between the probe and the attach. */
  method Prepare(cfg: Config, rpc: Rpc) returns (r: Result<(), Error>)
    requires rpc.Valid() && PhaseOf(cfg, rpc.history) == Ready(Init(0))
    modifies rpc
    ensures rpc.Valid() && old(rpc.history) <= rpc.history
    ensures PhaseOf(cfg, rpc.history) == if r.Ok? then Ready(ApnConfig) else Stopped
    ensures r.Err? ==> HaltedEarly(cfg, rpc.history, r.error)
    ensures r.Err? ==> r.error.ExitCode() == 1
  {
    hide PhaseOf, StepsOf, Halted, HaltedEarly, Rpc.Valid;
    var _ :- Initialize(cfg, rpc);
    var _ :- FccUnlock(cfg, rpc);
    var _ :- EnableRadio(cfg, rpc);
    var _ := FirmwareVersion(cfg, rpc);
    r := Ok(());
  }

  /** The phases of `BringUp` from the attach on. */
  method ConnectUp(cfg: Config, rpc: Rpc, ipClock: seq<bool>, configured: Result<(), Error>)
    returns (r: Result<(), Error>, ghost found: Option<(Ipv4, DnsServers)>)
    requires rpc.Valid() && PhaseOf(cfg, rpc.history) == Ready(ApnConfig)
    requires configured.Err? ==> configured.error.ExitCode() == 1
    modifies rpc
    ensures rpc.Valid() && old(rpc.history) <= rpc.history
    ensures Completed(cfg, rpc.history, configured, r, found)
  {
    hide *;
    found := None;
    var attached := AttachNetwork(cfg, rpc);
    if attached.Err? {
      AttachFailureCompletes(cfg, rpc.history, configured, attached.error);
      return Err(attached.error), None;
    }
    if !attached.value {
      RefusalCompletes(cfg, rpc.history, configured);
      return Err(AttachRefused), None;
    }
    var address, _ := WaitForIp(cfg, rpc, ipClock);
    if address.Err? {
      HaltCompletes(cfg, rpc.history, configured, address.error);
      return Err(address.error), None;
    }
    if address.value.None? {
      NoAddressCompletes(cfg, rpc.history, configured);
      return Err(NoIp), None;
    }
    found := address.value;
    ghost var polled := rpc.history;
    if configured.Err? {
      PolledIsConfigured(cfg, polled, rpc.history, found.value);
      NetworkFailureCompletes(cfg, rpc.history, configured, found.value);
      return Err(configured.error), found;
    }
    r := OpenDataChannel(cfg, rpc);
    PolledIsConfigured(cfg, polled, rpc.history, found.value);
    ChannelCompletes(cfg, rpc.history, configured, r, found.value);
  }

  lemma {:induction false} AttachFailureCompletes(cfg: Config, history: seq<Act>, configured: Result<(), Error>, e: Error)
    requires HaltedEarly(cfg, history, e) || ApnRejected(cfg, history, e)
    requires e.ExitCode() == 1
    ensures Completed(cfg, history, configured, Err(e), None)
  {
    if HaltedEarly(cfg, history, e) {
      HaltCompletes(cfg, history, configured, e);
    } else {
      EarlyIsBeforeChannel(cfg, history);
      hide PhaseOf, BeforeChannel, Configured;
    }
  }

  lemma {:induction false} RefusalCompletes(cfg: Config, history: seq<Act>, configured: Result<(), Error>)
    requires PhaseOf(cfg, history) == Bringup.Refused
    ensures Completed(cfg, history, configured, Err(AttachRefused), None)
  {
    hide PhaseOf, BeforeChannel, Configured;
    EarlyIsBeforeChannel(cfg, history);
  }

  lemma {:induction false} NoAddressCompletes(cfg: Config, history: seq<Act>, configured: Result<(), Error>)
    requires PhaseOf(cfg, history) == Ready(AskIp) && exists since: nat :: Polled(cfg, history, since, None)
    ensures Completed(cfg, history, configured, Err(NoIp), None)
  {
    hide PhaseOf, BeforeChannel, Configured, AddressReply;
    EarlyIsBeforeChannel(cfg, history);
  }

  lemma {:induction false} NetworkFailureCompletes(cfg: Config, history: seq<Act>, configured: Result<(), Error>,
                                                   found: (Ipv4, DnsServers))
    requires PhaseOf(cfg, history) == Ready(Step.PsConnect) && Configured(cfg, history, found)
    requires configured.Err? && configured.error.ExitCode() == 1
    ensures Completed(cfg, history, configured, configured, Some(found))
  {
    hide PhaseOf, BeforeChannel, Configured;
    EarlyIsBeforeChannel(cfg, history);
  }

  lemma {:induction false} ChannelCompletes(cfg: Config, history: seq<Act>, configured: Result<(), Error>, r: Result<(), Error>,
                                            found: (Ipv4, DnsServers))
    requires Configured(cfg, history, found) && configured.Ok?
    requires r.Ok? ==> PhaseOf(cfg, history) == Up
    requires r.Err? ==> Halted(cfg, history, r.error) || PathRejected(cfg, history, r.error)
    requires r.Err? ==> r.error.ExitCode() == 1
    ensures Completed(cfg, history, configured, r, Some(found))
  {
    hide PhaseOf, BeforeChannel, Configured, Explained;
  }

  /**
   * A run that leads on succeeds: when every reply leads on, nothing is lost but perhaps the version,
   * the payloads encode and the network configures, then whatever the clocks say the driver ends with
   * the data channel up.
   */
  lemma {:induction false} LeadingDriverSucceeds(apn: seq<byte>, path: seq<byte>, unlock: u32 -> u32, history: seq<Act>,
                                                 r: Result<(), Error>, found: Option<(Ipv4, DnsServers)>)
    requires |apn| <= 101 && |path| < 24 && AllGenuine(history)
    requires Completed(Config(BodiesFor(apn, path), unlock), history, Ok(()), r, found)
    requires var cfg := Config(BodiesFor(apn, path), unlock);
             && (forall i :: 0 <= i < |history| && history[i].Lost? ==> PhaseOf(cfg, history[..i]) == Waiting(Version))
             && (forall i :: 0 <= i < |history| && history[i].Heard? ==> LeadsOn(PhaseOf(cfg, history[..i]), history[i].message))
    ensures r.Ok? && found.Some?
  {
    hide PhaseOf, AllGenuine, LeadsOn, EndsAs, BodiesFor, Configured;
    BodiesDecode(apn, path);
    LeadingRunSucceeds(Config(BodiesFor(apn, path), unlock), history, Ok(()), r);
  }

  lemma {:induction false} PolledIsConfigured(cfg: Config, history: seq<Act>, longer: seq<Act>, found: (Ipv4, DnsServers))
    requires history <= longer && exists since: nat :: Polled(cfg, history, since, Some(found))
    ensures Configured(cfg, longer, found)
  {
    hide AddressReply, DnsReply;
    var since: nat :| Polled(cfg, history, since, Some(found));
    var i, j :| since <= i && j == |history| - 1 && PolledAt(cfg, history, i, j, Some(found));
    RepliedPersists(cfg, history, longer, i, AskIp);
    RepliedPersists(cfg, history, longer, j, AskDns(true));
    assert PolledAt(cfg, longer, i, j, Some(found));
  }

  /**
   * The correlation of `Pairing`, of the port the driver holds: whatever the firmware emitted during
   * the operations performed on it, as long as it answers each request at most once and not before it
   * was made, a reply in the history that moved a phase is the answer to that phase's own request, up
   * to a failed version query.
   */
  lemma {:induction false} DriverRepliesAreOwn(cfg: Config, rpc: Rpc, run: seq<Pairing.Served>, i: nat)
    requires rpc.Valid() && Follows(cfg, rpc.history)
    requires Pairing.OpsOf(run) == rpc.ops && Session.PossibleRun(Pairing.CallsOf(rpc.given, run))
    requires i < |rpc.history| && rpc.history[i].Heard? && rpc.history[i].message.kind.Response?
    requires PhaseOf(cfg, rpc.history[..i]).Waiting? && !Pairing.VersionFailed(cfg, rpc.history[..i])
    ensures exists k :: 0 <= k < |run| && run[k].op.Send?
                        && IsRequest(cfg, PhaseOf(cfg, rpc.history[..i]).step, run[k].op.request)
                        && Pairing.OwnReply(rpc.given, run, k, rpc.history[i].message)
  {
    assert rpc.history == Pairing.StateAfter(rpc.given, run).history;
    hide *;
    Pairing.RepliesAnswerTheirPhase(cfg, rpc.given, run, i);
  }
}
