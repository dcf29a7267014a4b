/**
 * The RPC port.  `Rpc` is the object the driver holds; a ghost history records every request,
 * message, failure and reopening, and the attach flag is a fold over it.
 */
module Transport {
  import opened Wrappers
  import opened ByteSeqs
  import opened Codec
  import opened Errors
  import opened Framing
  import opened Messages

  const UTA_MS_NET_IS_ATTACH_ALLOWED_IND_CB: u32 := 0x06c
  const UTA_MODE_SET_RSP_CB: u32 := 0x12d

  /**
   * What the operating system will answer: the events of the open file, whether each write
   * succeeds, and what each reopening yields.  Exhausted answers are failures.
   */
  datatype Port = Port(events: seq<Event>, writes: seq<bool>, opens: seq<Option<seq<Event>>>)

  /** One entry of the history. */
  datatype Act =
    | Issued(request: Request)
    | Heard(message: Message)
    | Lost(error: Error)
    | Reopened

  // ---------------------------------------------------------------- the attach flag

  /** The verdict of an attach-allowed indication with an integer third value. */
  function Verdict(m: Message): Option<bool> {
    if m.kind.Unsolicited? && m.code == UTA_MS_NET_IS_ATTACH_ALLOWED_IND_CB
       && |m.content| > 2 && m.content[2].Int?
    then Some(m.content[2].value != 0)
    else None
  }

  /** What an act makes of the attach flag, if anything. */
  function Setting(a: Act): Option<bool> {
    match a
    case Reopened => Some(false)
    case Heard(m) => Verdict(m)
    case _ => None
  }

  /** The attach flag after a history. */
  function AttachFlag(history: seq<Act>): bool {
    if history == [] then false
    else
      var last := history[|history| - 1];
      if Setting(last).Some? then Setting(last).value else AttachFlag(history[..|history| - 1])
  }

  /** The last act that sets the flag decides: attach is allowed exactly when that act allows it. */
  lemma {:induction false} LastSettingDecides(history: seq<Act>)
    ensures AttachFlag(history) <==>
              exists i :: 0 <= i < |history| && Setting(history[i]) == Some(true)
                          && forall j :: i < j < |history| ==> Setting(history[j]).None?
    decreases |history|
  {
    if history != [] {
      var front := history[..|history| - 1];
      LastSettingDecides(front);
      var last := history[|history| - 1];
      if Setting(last).None? && AttachFlag(front) {
        var i :| 0 <= i < |front| && Setting(front[i]) == Some(true)
                 && forall j :: i < j < |front| ==> Setting(front[j]).None?;
        assert Setting(history[i]) == Some(true);
        assert forall j :: i < j < |front| ==> Setting(history[j]) == Setting(front[j]);
      } else if Setting(last).None? {
        forall i | 0 <= i < |history| && Setting(history[i]) == Some(true)
          ensures exists j :: i < j < |history| && Setting(history[j]).Some?
        {
          assert front[i] == history[i];
          var j :| i < j < |front| && Setting(front[j]).Some?;
          assert history[j] == front[j];
        }
      }
    }
  }

  /** An act is an indication, with an integer third value, on whether an attach is allowed. */
  predicate Indicates(a: Act) {
    && a.Heard? && a.message.kind.Unsolicited? && a.message.code == 0x06c
    && |a.message.content| > 2 && a.message.content[2].Int?
  }

  /** Attach is allowed exactly when the last such indication says so and no reopening came since. */
  lemma {:induction false} AttachAllowedExactly(history: seq<Act>)
    ensures AttachFlag(history) <==>
              exists i :: 0 <= i < |history| && Indicates(history[i]) && history[i].message.content[2].value != 0
                          && forall j :: i < j < |history| ==> !Indicates(history[j]) && !history[j].Reopened?
  {
    LastSettingDecides(history);
    forall a: Act
      ensures Setting(a) == if a.Reopened? then Some(false)
                            else if Indicates(a) then Some(a.message.content[2].value != 0) else None
    {
    }
  }

  /** The requests a history issued, in order. */
  function RequestsOf(history: seq<Act>): seq<Request> {
    if history == [] then []
    else
      var front, last := RequestsOf(history[..|history| - 1]), history[|history| - 1];
      if last.Issued? then front + [last.request] else front
  }

  lemma {:induction false} HistorySnoc(history: seq<Act>, a: Act)
    ensures AttachFlag(history + [a])
            == if Setting(a).Some? then Setting(a).value else AttachFlag(history)
    ensures RequestsOf(history + [a])
            == if a.Issued? then RequestsOf(history) + [a.request] else RequestsOf(history)
  {
    assert (history + [a])[..|history|] == history;
  }

  /** The packets written so far are those of the requests issued. */
  ghost predicate Wrote(packets: seq<seq<byte>>, requests: seq<Request>) {
    |packets| == |requests| && forall i :: 0 <= i < |packets| ==> packets[i] == requests[i].Bytes()
  }

  // ---------------------------------------------------------------- receiving

  /** One message received, or the error that ended the attempt. */
  datatype Receipt = Receipt(message: Result<Message, Error>, inbuf: seq<byte>, events: seq<Event>)

  function Received(inbuf: seq<byte>, events: seq<Event>, timed: bool): Receipt {
    var o := FrameRead(inbuf, events, timed);
    match o.frame
    case Err(e) => Receipt(Err(e), o.inbuf, o.events)
    case Ok(raw) => Receipt(ParsedMessage(raw), o.inbuf, o.events)
  }

  /** Receiving never reports the soft failures that map to exit code 2. */
  lemma {:induction false} ReceiveFailsHard(inbuf: seq<byte>, events: seq<Event>, timed: bool)
    ensures FrameRead(inbuf, events, timed).frame.Err? ==> FrameRead(inbuf, events, timed).frame.error.ExitCode() == 1
    ensures Received(inbuf, events, timed).message.Err? ==> Received(inbuf, events, timed).message.error.ExitCode() == 1
    decreases |events|
  {
    if NextFrame(inbuf).Partial? && events != [] {
      if events[0].Quiet? && !timed {
        ReceiveFailsHard(inbuf, events[1..], timed);
      } else if events[0].Read? && events[0].chunk != [] {
        ReceiveFailsHard(inbuf + events[0].chunk, events[1..], timed);
      }
    }
  }

  lemma {:induction false} ParsingHasNoDeadline(raw: seq<byte>)
    ensures ParsedMessage(raw) != Err(Timeout)
  {
  }

  /** Only a receive under a deadline times out, and just when the read of its frame does. */
  lemma {:induction false} ReceiveTimesOut(inbuf: seq<byte>, events: seq<Event>, timed: bool)
    ensures Received(inbuf, events, timed).message == Err(Timeout)
            <==> timed && FrameRead(inbuf, events, timed).frame == Err(Timeout)
  {
    hide FrameRead, ParsedMessage;
    TimeoutExactly(inbuf, events, timed);
    if FrameRead(inbuf, events, timed).frame.Ok? {
      ParsingHasNoDeadline(FrameRead(inbuf, events, timed).frame.value);
    }
  }

  /** Every message received uses up some of the input. */
  lemma {:induction false} ReceiveConsumes(inbuf: seq<byte>, events: seq<Event>, timed: bool)
    ensures var o := Received(inbuf, events, timed);
            o.message.Ok? ==> |o.inbuf| + |DataOf(o.events)| < |inbuf| + |DataOf(events)|
  {
    FirstFrame(inbuf, events, timed);
  }

  /** The answer to a request, the messages skipped before it, and how many frames were taken. */
  datatype Answer = Answer(message: Result<Message, Error>, skipped: seq<Message>, taken: nat,
                           inbuf: seq<byte>, events: seq<Event>)

  /** Receiving until a response or an error turns up. */
  function Awaited(inbuf: seq<byte>, events: seq<Event>): Answer
    decreases |inbuf| + |DataOf(events)|
  {
    var o := FrameRead(inbuf, events, true);
    match o.frame
    case Err(e) => Answer(Err(e), [], 0, o.inbuf, o.events)
    case Ok(raw) =>
      match ParsedMessage(raw)
      case Err(e) => Answer(Err(e), [], 1, o.inbuf, o.events)
      case Ok(m) =>
        if m.kind.Response? then Answer(Ok(m), [], 1, o.inbuf, o.events)
        else
          Conservation(inbuf, events, true);
          FirstFrame(inbuf, events, true);
          var rest := Awaited(o.inbuf, o.events);
          rest.(skipped := [m] + rest.skipped, taken := 1 + rest.taken)
  }

  /** The history entries of some received messages. */
  function Receipts(ms: seq<Message>): (acts: seq<Act>)
    ensures |acts| == |ms|
    ensures forall i :: 0 <= i < |ms| ==> acts[i] == Heard(ms[i])
  {
    if ms == [] then [] else [Heard(ms[0])] + Receipts(ms[1..])
  }

  lemma {:induction false} SkippedAreNotResponses(inbuf: seq<byte>, events: seq<Event>)
    ensures forall i :: 0 <= i < |Awaited(inbuf, events).skipped| ==> !Awaited(inbuf, events).skipped[i].kind.Response?
    ensures Awaited(inbuf, events).message.Ok? ==> Awaited(inbuf, events).message.value.kind.Response?
    decreases |inbuf| + |DataOf(events)|
  {
    var o := FrameRead(inbuf, events, true);
    if o.frame.Ok? && ParsedMessage(o.frame.value).Ok? && !ParsedMessage(o.frame.value).value.kind.Response? {
      FirstFrame(inbuf, events, true);
      SkippedAreNotResponses(o.inbuf, o.events);
    }
  }

  /** The `n`th of successive receives. */
  function NthReceived(inbuf: seq<byte>, events: seq<Event>, n: nat): Receipt
    decreases n
  {
    var o := Received(inbuf, events, true);
    if n == 0 then o else NthReceived(o.inbuf, o.events, n - 1)
  }

  /**
   * What waiting comes to, exactly: the first receive that fails or gives a response decides, and
   * the messages before it, none of them a response, are those skipped.
   */
  lemma {:induction false} AwaitedIsFirstResponse(inbuf: seq<byte>, events: seq<Event>)
    ensures var a := Awaited(inbuf, events);
            && NthReceived(inbuf, events, |a.skipped|) == Receipt(a.message, a.inbuf, a.events)
            && (a.message.Ok? ==> a.message.value.kind.Response?)
            && forall i :: 0 <= i < |a.skipped| ==> NthReceived(inbuf, events, i).message == Ok(a.skipped[i])
                                                    && !a.skipped[i].kind.Response?
    decreases |inbuf| + |DataOf(events)|
  {
    hide FrameRead, ParsedMessage;
    FirstFrame(inbuf, events, true);
    var o := Received(inbuf, events, true);
    if o.message.Ok? && !o.message.value.kind.Response? {
      AwaitedIsFirstResponse(o.inbuf, o.events);
    }
  }

  /** How a received message or an error goes down in the history. */
  function Outcome(r: Result<Message, Error>): Act {
    match r
    case Ok(m) => Heard(m)
    case Err(e) => Lost(e)
  }

  // ---------------------------------------------------------------- whole operations

  /** What a caller does to a port: a request, a plain receive, a reopening. */
  datatype Op = Send(request: Request) | Hear | Reset

  /** A port between two operations: the answers still to come, the buffer and the history. */
  datatype State = State(port: Port, inbuf: seq<byte>, history: seq<Act>)

  function Tail<T>(s: seq<T>): seq<T> {
    if s == [] then [] else s[1..]
  }

  predicate WriteSucceeds(port: Port) {
    port.writes != [] && port.writes[0]
  }

  predicate OpenSucceeds(port: Port) {
    port.opens != [] && port.opens[0].Some?
  }

  /** What an operation makes of a port. */
  function Done(s: State, op: Op): State {
    match op
    case Send(request) =>
      var port, issued := s.port.(writes := Tail(s.port.writes)), s.history + [Issued(request)];
      if !WriteSucceeds(s.port) then State(port, s.inbuf, issued + [Lost(Io)])
      else
        var a := Awaited(s.inbuf, s.port.events);
        State(port.(events := a.events), a.inbuf, issued + Receipts(a.skipped) + [Outcome(a.message)])
    case Hear =>
      var o := Received(s.inbuf, s.port.events, false);
      State(s.port.(events := o.events), o.inbuf, s.history + [Outcome(o.message)])
    case Reset =>
      var port := s.port.(opens := Tail(s.port.opens));
      if OpenSucceeds(s.port) then State(port.(events := s.port.opens[0].value), [], s.history + [Reopened])
      else State(port, s.inbuf, s.history + [Lost(Io)])
  }

  /** A newly opened port after some operations: all that they leave behind and put on record. */
  function Played(port: Port, ops: seq<Op>): State {
    if ops == [] then State(port, [], []) else Done(Played(port, ops[..|ops| - 1]), ops[|ops| - 1])
  }

  lemma {:induction false} PlayedSnoc(port: Port, ops: seq<Op>, op: Op)
    ensures Played(port, ops + [op]) == Done(Played(port, ops), op)
  {
    assert (ops + [op])[..|ops|] == ops;
  }

  /** An operation does the same on a port with another past. */
  lemma {:induction false} PastIsPast(s: State, past: seq<Act>, op: Op)
    ensures var t := Done(s, op);
            Done(s.(history := past + s.history), op) == t.(history := past + t.history)
  {
    hide Awaited, Received, Receipts, Outcome;
    if op.Send? {
      var a := Awaited(s.inbuf, s.port.events);
      var tail := if WriteSucceeds(s.port) then Receipts(a.skipped) + [Outcome(a.message)] else [Lost(Io)];
      assert Done(s, op).history == s.history + ([Issued(op.request)] + tail);
      assert Done(s.(history := past + s.history), op).history == past + s.history + ([Issued(op.request)] + tail);
    }
  }

  /**
   * A reopening starts over: whatever follows it goes as on a port newly opened on the file it
   * yields, with the writes and openings still to come; nothing of the old file is seen again.
   */
  lemma {:induction false} ReopeningStartsOver(port: Port, before: seq<Op>, after: seq<Op>)
    requires var s := Played(port, before); s.port.opens != [] && s.port.opens[0].Some?
    ensures var s := Played(port, before);
            var t := Played(Port(s.port.opens[0].value, s.port.writes, s.port.opens[1..]), after);
            Played(port, before + [Reset] + after) == State(t.port, t.inbuf, s.history + [Reopened] + t.history)
    decreases |after|
  {
    var s := Played(port, before);
    var past := s.history + [Reopened];
    if after == [] {
      PlayedSnoc(port, before, Reset);
      assert before + [Reset] + after == before + [Reset] && past + [] == past;
    } else {
      hide Done;
      var n := |after| - 1;
      var renewed := Port(s.port.opens[0].value, s.port.writes, s.port.opens[1..]);
      ReopeningStartsOver(port, before, after[..n]);
      assert before + [Reset] + after == before + [Reset] + after[..n] + [after[n]];
      PlayedSnoc(port, before + [Reset] + after[..n], after[n]);
      PastIsPast(Played(renewed, after[..n]), past, after[n]);
    }
  }

  /** The content of a message is what its body decodes to. */
  predicate Genuine(m: Message) {
    Decoded(m.body) == Ok(m.content)
  }

  ghost predicate AllGenuine(history: seq<Act>) {
    forall i :: 0 <= i < |history| && history[i].Heard? ==> Genuine(history[i].message)
  }

  lemma {:induction false} ReceivedIsGenuine(inbuf: seq<byte>, events: seq<Event>, timed: bool)
    ensures Received(inbuf, events, timed).message.Ok? ==> Genuine(Received(inbuf, events, timed).message.value)
  {
    hide FrameRead, ParsedMessage, Decoded;
    var o := FrameRead(inbuf, events, timed);
    if o.frame.Ok? && ParsedMessage(o.frame.value).Ok? {
      ContentIsDecodedBody(o.frame.value);
    }
  }

  lemma {:induction false} AwaitedIsGenuine(inbuf: seq<byte>, events: seq<Event>)
    ensures forall i :: 0 <= i < |Awaited(inbuf, events).skipped| ==> Genuine(Awaited(inbuf, events).skipped[i])
    ensures Awaited(inbuf, events).message.Ok? ==> Genuine(Awaited(inbuf, events).message.value)
    decreases |inbuf| + |DataOf(events)|
  {
    hide FrameRead, ParsedMessage, Decoded, Genuine;
    ReceivedIsGenuine(inbuf, events, true);
    FirstFrame(inbuf, events, true);
    var o := Received(inbuf, events, true);
    if o.message.Ok? && !o.message.value.kind.Response? {
      AwaitedIsGenuine(o.inbuf, o.events);
    }
  }

  /** Every message in the history of a port is genuine. */
  lemma {:induction false} HistoryIsGenuine(port: Port, ops: seq<Op>)
    ensures AllGenuine(Played(port, ops).history)
    decreases |ops|
  {
    hide Awaited, Received, Genuine;
    if ops != [] {
      var s := Played(port, ops[..|ops| - 1]);
      HistoryIsGenuine(port, ops[..|ops| - 1]);
      AwaitedIsGenuine(s.inbuf, s.port.events);
      ReceivedIsGenuine(s.inbuf, s.port.events, false);
    }
  }

  /**
   * The port object.  Its history is no free-standing record: whatever its fields are, they are what
   * the operations performed made of the port as it was opened.
   */
  class Rpc {
    var port: Port
    var inbuf: seq<byte>
    var attachAllowed: bool
    ghost var history: seq<Act>
    ghost var written: seq<seq<byte>>
    ghost const given: Port
    ghost var ops: seq<Op>

    ghost function Now(): State
      reads this
    {
      State(port, inbuf, history)
    }

    /** What holds within an operation too. */
    ghost predicate Tidy()
      reads this
    {
      Settled(inbuf) && attachAllowed == AttachFlag(history) && Wrote(written, RequestsOf(history))
    }

    ghost predicate Valid()
      reads this
    {
      Tidy() && Now() == Played(given, ops)
    }

    constructor (port: Port)
      ensures Valid() && given == port && inbuf == [] && !attachAllowed && history == [] && ops == []
    {
      this.port := port;
      inbuf := [];
      attachAllowed := false;
      history, written, given, ops := [], [], port, [];
    }

    /** Put an act other than a request on record, the attach flag being what the act makes it. */
    ghost method Note(a: Act)
      requires Settled(inbuf) && Wrote(written, RequestsOf(history)) && !a.Issued?
      requires attachAllowed == if Setting(a).Some? then Setting(a).value else AttachFlag(history)
      modifies this`history
      ensures Tidy() && history == old(history) + [a]
    {
      HistorySnoc(history, a);
      history := history + [a];
    }

    /** Start over on a newly opened channel, with nothing buffered and no attach allowed. */
    method Reopen() returns (r: Result<(), Error>)
      requires Valid()
      modifies this
      ensures Valid() && ops == old(ops) + [Reset]
      ensures Now() == Done(old(Now()), Reset)
      ensures r == if old(port).opens != [] && old(port).opens[0].Some? then Ok(()) else Err(Io)
      ensures r.Ok? ==> port.events == old(port).opens[0].value && inbuf == [] && !attachAllowed
      ensures r.Err? ==> port.events == old(port).events && inbuf == old(inbuf) && attachAllowed == old(attachAllowed)
      ensures port.opens == Tail(old(port).opens) && port.writes == old(port).writes
      ensures history == old(history) + [if r.Ok? then Reopened else Lost(Io)]
    {
      hide AttachFlag, RequestsOf, Wrote, Played, Awaited, Received, Verdict;
      PlayedSnoc(given, ops, Reset);
      ops := ops + [Reset];
      if port.opens == [] {
        Note(Lost(Io));
        return Err(Io);
      }
      var answer := port.opens[0];
      port := port.(opens := port.opens[1..]);
      if answer.None? {
        Note(Lost(Io));
        return Err(Io);
      }
      port := port.(events := answer.value);
      inbuf := [];
      attachAllowed := false;
      Note(Reopened);
      r := Ok(());
    }

    /** Send one packet. */
    method WriteAll(packet: seq<byte>, ghost request: Request) returns (ok: bool)
      requires Tidy() && packet == request.Bytes()
      modifies this`port, this`history, this`written
      ensures Tidy() && history == old(history) + [Issued(request)] && written == old(written) + [packet]
      ensures ok == WriteSucceeds(old(port)) && port == old(port).(writes := Tail(old(port).writes))
    {
      hide AttachFlag, RequestsOf, Settled, Packet;
      HistorySnoc(history, Issued(request));
      history := history + [Issued(request)];
      written := written + [packet];
      if port.writes == [] {
        return false;
      }
      ok := port.writes[0];
      port := port.(writes := port.writes[1..]);
    }

    /** Read exactly one frame, buffering any surplus bytes. */
    method ReadMessage(timed: bool) returns (r: Result<seq<byte>, Error>)
      requires Settled(inbuf)
      modifies this`inbuf, this`port
      ensures Reading(r, inbuf, port.events) == FrameRead(old(inbuf), old(port).events, timed)
      ensures port == old(port).(events := port.events)
      ensures exists n: nat :: Fills(old(inbuf), old(port).events, timed, n) && StopsWith(old(inbuf), old(port).events, timed, n, r)
      ensures r == Err(Timeout) ==> timed
      ensures Settled(inbuf) && |inbuf| < MAX_MESSAGE_LEN && (r.Ok? ==> |inbuf| < READ_BUF_LEN)
    {
      BufferStaysBounded(inbuf, port.events, timed);
      CallEndsExactly(inbuf, port.events, timed, FrameRead(inbuf, port.events, timed).frame);
      TimeoutExactly(inbuf, port.events, timed);
      while true
        invariant port == old(port).(events := port.events)
        invariant FrameRead(inbuf, port.events, timed) == FrameRead(old(inbuf), old(port).events, timed)
        invariant Filling(inbuf) && |inbuf| < MAX_MESSAGE_LEN + READ_BUF_LEN
        decreases |port.events|
      {
        match NextFrame(inbuf) {
          case Invalid(total) =>
            return Err(Protocol(FrameLength(total)));
          case Whole(total) =>
            r := Ok(inbuf[..total]);
            inbuf := inbuf[total..];
            return;
          case Partial =>
        }
        if port.events == [] {
          return Err(Protocol(PortClosed));
        }
        var event := port.events[0];
        port := port.(events := port.events[1..]);
        match event {
          case Quiet =>
            if timed {
              return Err(Timeout);
            }
          case Fault =>
            return Err(Io);
          case Read(chunk) =>
            if chunk == [] {
              return Err(Protocol(PortClosed));
            }
            FillingGrows(inbuf, chunk);
            FillingIsBounded(inbuf + chunk);
            inbuf := inbuf + chunk;
        }
      }
    }

    method HandleUnsolicited(message: Message)
      requires message.kind.Unsolicited?
      modifies this`attachAllowed
      ensures attachAllowed == if Verdict(message).Some? then Verdict(message).value else old(attachAllowed)
      ensures attachAllowed == if message.code == 0x06c && |message.content| > 2 && message.content[2].Int?
                               then message.content[2].value != 0 else old(attachAllowed)
    {
      if message.code == UTA_MS_NET_IS_ATTACH_ALLOWED_IND_CB {
        var third := if |message.content| > 2 then message.content[2].AsInt() else None;
        if third.Some? {
          attachAllowed := third.value != 0;
        }
      }
    }

    /** Read and process one message. */
    method RecvInner(timed: bool) returns (r: Result<Message, Error>)
      requires Tidy()
      modifies this`port, this`inbuf, this`attachAllowed, this`history
      ensures Tidy()
      ensures Receipt(r, inbuf, port.events) == Received(old(inbuf), old(port).events, timed)
      ensures port == old(port).(events := port.events)
      ensures history == old(history) + [Outcome(r)]
      ensures r.Err? ==> r.error.ExitCode() == 1
      ensures r == Err(Timeout) ==> timed
      ensures r.Ok? ==> |inbuf| + |DataOf(port.events)| < old(|inbuf| + |DataOf(port.events)|)
    {
      hide FrameRead, ParsedMessage, AttachFlag, RequestsOf, Wrote, Settled;
      ReceiveFailsHard(inbuf, port.events, timed);
      ReceiveTimesOut(inbuf, port.events, timed);
      ReceiveConsumes(inbuf, port.events, timed);
      var raw := ReadMessage(timed);
      if raw.Err? {
        Note(Lost(raw.error));
        return Err(raw.error);
      }
      r := ParseMessage(raw.value);
      if r.Ok? && r.value.kind.Unsolicited? {
        HandleUnsolicited(r.value);
      }
      Note(Outcome(r));
    }

    /** Read and process one message, without a deadline. */
    method Recv() returns (r: Result<Message, Error>)
      requires Valid()
      modifies this
      ensures Valid() && ops == old(ops) + [Hear]
      ensures Now() == Done(old(Now()), Hear)
      ensures r == Received(old(inbuf), old(port).events, false).message
      ensures history == old(history) + [Outcome(r)]
      ensures r.Err? ==> r.error.ExitCode() == 1 && r.error != Timeout
      ensures r.Ok? ==> |inbuf| + |DataOf(port.events)| < old(|inbuf| + |DataOf(port.events)|)
    {
      hide Received, Awaited, AttachFlag, RequestsOf, Wrote, Settled, Played, Setting;
      PlayedSnoc(given, ops, Hear);
      ops := ops + [Hear];
      r := RecvInner(false);
    }

    /** Send a request and wait for its response; other messages are processed and skipped. */
    method Execute(cmd: u32, body: seq<byte>, mode: Mode) returns (r: Result<Message, Error>, ghost skipped: seq<Message>)
      requires Valid()
      modifies this
      ensures Valid() && ops == old(ops) + [Send(Request(cmd, body, mode))]
      ensures Now() == Done(old(Now()), Send(Request(cmd, body, mode)))
      ensures written == old(written) + [Packet(cmd, body, mode)]
      ensures port.writes == Tail(old(port).writes) && port.opens == old(port).opens
      ensures old(port).writes == [] || !old(port).writes[0] ==>
                r == Err(Io) && inbuf == old(inbuf) && port.events == old(port).events
      ensures old(port).writes != [] && old(port).writes[0] ==>
                var a := Awaited(old(inbuf), old(port).events);
                r == a.message && skipped == a.skipped && inbuf == a.inbuf && port.events == a.events
      ensures history == old(history) + [Issued(Request(cmd, body, mode))] + Receipts(skipped) + [Outcome(r)]
      ensures forall i :: 0 <= i < |skipped| ==> !skipped[i].kind.Response?
      ensures r.Ok? ==> r.value.kind.Response?
      ensures r.Err? ==> r.error.ExitCode() == 1
    {
      hide Awaited, Received, AttachFlag, RequestsOf, Wrote, Settled, Played, Setting, Packet;
      PlayedSnoc(given, ops, Send(Request(cmd, body, mode)));
      r, skipped := ExecuteWithTimeout(cmd, body, mode);
      ops := ops + [Send(Request(cmd, body, mode))];
    }

    /** `Execute` but for the record of operations; how long the timeout is does not matter here. */
    method ExecuteWithTimeout(cmd: u32, body: seq<byte>, mode: Mode)
      returns (r: Result<Message, Error>, ghost skipped: seq<Message>)
      requires Tidy()
      modifies this`port, this`inbuf, this`attachAllowed, this`history, this`written
      ensures Tidy()
      ensures Now() == Done(old(Now()), Send(Request(cmd, body, mode)))
      ensures written == old(written) + [Packet(cmd, body, mode)]
      ensures port.writes == Tail(old(port).writes) && port.opens == old(port).opens
      ensures old(port).writes == [] || !old(port).writes[0] ==>
                r == Err(Io) && inbuf == old(inbuf) && port.events == old(port).events
      ensures old(port).writes != [] && old(port).writes[0] ==>
                var a := Awaited(old(inbuf), old(port).events);
                r == a.message && skipped == a.skipped && inbuf == a.inbuf && port.events == a.events
      ensures history == old(history) + [Issued(Request(cmd, body, mode))] + Receipts(skipped) + [Outcome(r)]
      ensures forall i :: 0 <= i < |skipped| ==> !skipped[i].kind.Response?
      ensures r.Ok? ==> r.value.kind.Response?
      ensures r.Err? ==> r.error.ExitCode() == 1
    {
      hide Awaited, Received, AttachFlag, RequestsOf, Wrote, Settled, Verdict;
      var packet := BuildHeader(cmd, |body|, mode);
      packet := packet + body;
      var sent := WriteAll(packet, Request(cmd, body, mode));
      if sent {
        r, skipped := AwaitResponse();
      } else {
        Note(Lost(Io));
        r, skipped := Err(Io), [];
      }
    }

    /** The receiving loop of `ExecuteWithTimeout`. */
    method AwaitResponse() returns (r: Result<Message, Error>, ghost skipped: seq<Message>)
      requires Tidy()
      modifies this`port, this`inbuf, this`attachAllowed, this`history
      ensures Tidy()
      ensures port == old(port).(events := port.events)
      ensures var a := Awaited(old(inbuf), old(port).events);
              r == a.message && skipped == a.skipped && inbuf == a.inbuf && port.events == a.events
      ensures history == old(history) + Receipts(skipped) + [Outcome(r)]
      ensures forall i :: 0 <= i < |skipped| ==> !skipped[i].kind.Response?
      ensures r.Ok? ==> r.value.kind.Response?
      ensures r.Err? ==> r.error.ExitCode() == 1
    {
      hide Awaited, Received, AttachFlag, RequestsOf, Wrote, Settled, Setting;
      SkippedAreNotResponses(inbuf, port.events);
      skipped := [];
      ghost var all := Awaited(inbuf, port.events);
      assert all == Resumed(all, []);
      while true
        invariant Tidy() && port == old(port).(events := port.events)
        invariant WaitsFor(all, inbuf, port.events, skipped)
        invariant history == old(history) + Receipts(skipped)
        decreases |inbuf| + |DataOf(port.events)|
      {
        ghost var front, coming := inbuf, port.events;
        r := RecvInner(true);
        AwaitedStep(all, front, coming, skipped, Receipt(r, inbuf, port.events));
        if r.Err? || r.value.kind.Response? {
          return;
        }
        ReceiptsSnoc(skipped, r.value);
        Associate(old(history), Receipts(skipped), [Heard(r.value)]);
        skipped := skipped + [r.value];
      }
    }
  }

  /** `all` is the answer awaited from here, preceded by the messages skipped so far. */
  ghost predicate WaitsFor(all: Answer, inbuf: seq<byte>, events: seq<Event>, skipped: seq<Message>) {
    all == Resumed(Awaited(inbuf, events), skipped)
  }

  lemma {:induction false} AwaitedStep(all: Answer, inbuf: seq<byte>, events: seq<Event>, skipped: seq<Message>, o: Receipt)
    requires WaitsFor(all, inbuf, events, skipped) && o == Received(inbuf, events, true)
    ensures o.message.Err? || o.message.value.kind.Response? ==>
              all.message == o.message && all.skipped == skipped && all.inbuf == o.inbuf && all.events == o.events
    ensures o.message.Ok? && !o.message.value.kind.Response? ==>
              WaitsFor(all, o.inbuf, o.events, skipped + [o.message.value])
  {
    assert skipped + [] == skipped;
    if o.message.Ok? && !o.message.value.kind.Response? {
      ResumedStep(Awaited(inbuf, events), Awaited(o.inbuf, o.events), skipped, o.message.value);
    }
  }

  /** An answer that was preceded by some skipped messages. */
  function Resumed(a: Answer, before: seq<Message>): Answer {
    a.(skipped := before + a.skipped, taken := |before| + a.taken)
  }

  lemma {:induction false} ResumedStep(a: Answer, rest: Answer, before: seq<Message>, m: Message)
    requires a == rest.(skipped := [m] + rest.skipped, taken := 1 + rest.taken)
    ensures Resumed(a, before) == Resumed(rest, before + [m])
  {
    assert before + ([m] + rest.skipped) == before + [m] + rest.skipped;
  }

  lemma {:induction false} ReceiptsSnoc(ms: seq<Message>, m: Message)
    ensures Receipts(ms + [m]) == Receipts(ms) + [Heard(m)]
  {
  }

  // ---------------------------------------------------------------- the stream behind a call

  /** The skipped messages are the first of the frames taken; one beyond them is where the outcome is from. */
  ghost predicate Explains(fs: seq<seq<byte>>, skipped: seq<Message>, taken: nat, outcome: Result<Message, Error>) {
    && |skipped| <= taken <= |fs| && taken <= |skipped| + 1
    && (forall i :: 0 <= i < |skipped| ==> ParsedMessage(fs[i]) == Ok(skipped[i]))
    && (taken == |skipped| + 1 ==> ParsedMessage(fs[taken - 1]) == outcome)
    && (outcome.Ok? ==> taken == |skipped| + 1)
  }

  /** An answer takes frames off the front of a stream one by one and leaves the rest of it. */
  ghost predicate TakesFrames(a: Answer, stream: seq<byte>) {
    var fs := FramesOf(stream);
    Explains(fs, a.skipped, a.taken, a.message) && stream == Flatten(fs[..a.taken]) + (a.inbuf + DataOf(a.events))
  }

  lemma {:induction false} ExplainsOneMore(f: seq<byte>, m: Message, fs: seq<seq<byte>>, skipped: seq<Message>, taken: nat,
                        outcome: Result<Message, Error>)
    requires ParsedMessage(f) == Ok(m) && Explains(fs, skipped, taken, outcome)
    ensures Explains([f] + fs, [m] + skipped, 1 + taken, outcome)
  {
    hide ParsedMessage;
    assert taken > 0 ==> ([f] + fs)[taken] == fs[taken - 1];
  }

  lemma {:induction false} FlattenOneMore(f: seq<byte>, fs: seq<seq<byte>>, n: nat, remainder: seq<byte>)
    requires n <= |fs|
    ensures f + (Flatten(fs[..n]) + remainder) == Flatten(([f] + fs)[..1 + n]) + remainder
  {
    assert ([f] + fs)[..1 + n] == [f] + fs[..n];
    assert ([f] + fs[..n])[1..] == fs[..n];
    Associate(f, Flatten(fs[..n]), remainder);
  }

  lemma {:induction false} TakesOneMore(f: seq<byte>, m: Message, rest: Answer, stream: seq<byte>)
    requires IsFrame(f) && ParsedMessage(f) == Ok(m) && TakesFrames(rest, stream)
    ensures TakesFrames(rest.(skipped := [m] + rest.skipped, taken := 1 + rest.taken), f + stream)
  {
    FramesOfStep(f, stream);
    FlattenOneMore(f, FramesOf(stream), rest.taken, rest.inbuf + DataOf(rest.events));
    ExplainsOneMore(f, m, FramesOf(stream), rest.skipped, rest.taken, rest.message);
  }

  lemma {:induction false} TakesOne(f: seq<byte>, a: Answer, stream: seq<byte>)
    requires IsFrame(f) && ParsedMessage(f) == a.message && a.taken == 1 && a.skipped == []
    requires stream == a.inbuf + DataOf(a.events)
    ensures TakesFrames(a, f + stream)
  {
    FramesOfStep(f, stream);
    assert ([f] + FramesOf(stream))[..1] == [f];
    assert Flatten([f]) == f + Flatten([]) == f;
  }

  /** Waiting for a response takes frames off the front of the stream. */
  lemma {:induction false} AwaitedTakesFrames(inbuf: seq<byte>, events: seq<Event>)
    ensures TakesFrames(Awaited(inbuf, events), inbuf + DataOf(events))
    decreases |inbuf| + |DataOf(events)|
  {
    hide FrameRead, ParsedMessage;
    var stream, a, o := inbuf + DataOf(events), Awaited(inbuf, events), FrameRead(inbuf, events, true);
    FirstFrame(inbuf, events, true);
    if o.frame.Err? {
      assert FramesOf(stream)[..0] == [];
      assert [] + (a.inbuf + DataOf(a.events)) == stream;
    } else {
      var f := o.frame.value;
      assert stream == f + (o.inbuf + DataOf(o.events));
      ReturnedIsFrame(inbuf, events, true);
      if ParsedMessage(f).Ok? && !ParsedMessage(f).value.kind.Response? {
        AwaitedTakesFrames(o.inbuf, o.events);
        TakesOneMore(f, ParsedMessage(f).value, Awaited(o.inbuf, o.events), o.inbuf + DataOf(o.events));
      } else {
        TakesOne(f, a, o.inbuf + DataOf(o.events));
      }
    }
  }

  lemma {:induction false} AwaitedConsumes(inbuf: seq<byte>, events: seq<Event>)
    ensures |Awaited(inbuf, events).events| <= |events|
    decreases |inbuf| + |DataOf(events)|
  {
    var o := FrameRead(inbuf, events, true);
    if o.frame.Ok? && ParsedMessage(o.frame.value).Ok? && !ParsedMessage(o.frame.value).value.kind.Response? {
      FirstFrame(inbuf, events, true);
      AwaitedConsumes(o.inbuf, o.events);
    }
  }

  /** The events of a call, given those left behind it. */
  function Used(events: seq<Event>, left: seq<Event>): seq<Event> {
    if |left| <= |events| then events[..|events| - |left|] else []
  }

  /** Waiting, too, depends only on the events it consumes. */
  lemma {:induction false} AwaitedLocal(inbuf: seq<byte>, events: seq<Event>)
    ensures var a := Awaited(inbuf, events); Awaited(inbuf, Used(events, a.events)) == a.(events := [])
    decreases |inbuf| + |DataOf(events)|
  {
    hide FrameRead, ParsedMessage;
    var o, a := FrameRead(inbuf, events, true), Awaited(inbuf, events);
    var n, m := |events| - |o.events|, |events| - |a.events|;
    AwaitedConsumes(inbuf, events);
    if o.frame.Ok? && ParsedMessage(o.frame.value).Ok? && !ParsedMessage(o.frame.value).value.kind.Response? {
      FirstFrame(inbuf, events, true);
      EventsConsumedInOrder(inbuf, events, true);
      AwaitedConsumes(o.inbuf, o.events);
      AwaitedLocal(o.inbuf, o.events);
      assert Used(o.events, a.events) == events[n..m];
    } else {
      assert events[n..m] == [];
    }
    FrameReadLocal(inbuf, events, true, m);
  }

  lemma {:induction false} ReceivedLocal(inbuf: seq<byte>, events: seq<Event>, timed: bool)
    ensures var o := Received(inbuf, events, timed); Received(inbuf, Used(events, o.events), timed) == o.(events := [])
  {
    hide FrameRead, ParsedMessage;
    var m := |events| - |FrameRead(inbuf, events, timed).events|;
    FrameReadLocal(inbuf, events, timed, m);
    assert events[m..m] == [];
  }

  /** A failed parse consumes exactly its own frame. */
  lemma {:induction false} BadFrameIsConsumed(inbuf: seq<byte>, events: seq<Event>, timed: bool)
    requires FrameRead(inbuf, events, timed).frame.Ok?
    requires ParsedMessage(FrameRead(inbuf, events, timed).frame.value).Err?
    ensures var o := Received(inbuf, events, timed);
            && o.message.Err?
            && FramesOf(inbuf + DataOf(events))
               == [FrameRead(inbuf, events, timed).frame.value] + FramesOf(o.inbuf + DataOf(o.events))
  {
    FirstFrame(inbuf, events, timed);
  }
}
