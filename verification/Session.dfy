/**
 * The request/response session between host and firmware.  Responses carry no request number: the
 * host takes the first response that arrives.  `Link` is the state between two calls, seen from
 * outside: the host's buffer, the bytes in flight, the frames they spell and the requests the
 * firmware still owes an answer.  The calls are those of `Transport.Rpc`, through the functions
 * its methods are proved against.
 */
module Session {
  import opened Wrappers
  import opened ByteSeqs
  import opened Codec
  import opened Errors
  import opened Framing
  import opened Messages
  import opened Transport

  /** A frame the firmware emits, and the number of the request it answers, if it answers one. */
  datatype Emitted = Emitted(raw: seq<byte>, answers: Option<nat>) {

    /** Answers, and only answers, are responses; a frame of either sort may also be unreadable. */
    predicate WellSorted() {
      && IsFrame(raw)
      && (ParsedMessage(raw).Ok? ==> (ParsedMessage(raw).value.kind.Response? <==> answers.Some?))
    }
  }

  datatype Link = Link(inbuf: seq<byte>, wire: seq<byte>, frames: seq<Emitted>, owed: set<nat>, next: nat, broken: bool)

  /**
   * One call, with the frames the firmware emits meanwhile and the events the host observes.  What
   * is emitted but not yet readable is `late`.
   */
  datatype Call =
    | Execute(emitted: seq<Emitted>, events: seq<Event>, late: seq<byte>)
    | Unsent
    | Receive(emitted: seq<Emitted>, events: seq<Event>, late: seq<byte>)
    | Reopen
    | ReopenFails

  const FRESH := Link([], [], [], {}, 0, false)

  function Raws(es: seq<Emitted>): (rs: seq<seq<byte>>)
    ensures |rs| == |es|
    ensures forall i :: 0 <= i < |es| ==> rs[i] == es[i].raw
  {
    if es == [] then [] else [es[0].raw] + Raws(es[1..])
  }

  /** Every answer is to a request that is owed one, and no request is answered twice. */
  predicate AnswersOwed(owed: set<nat>, es: seq<Emitted>) {
    es == [] ||
    (if es[0].answers.None? then AnswersOwed(owed, es[1..])
     else es[0].answers.value in owed && AnswersOwed(owed - {es[0].answers.value}, es[1..]))
  }

  function StillOwed(owed: set<nat>, es: seq<Emitted>): set<nat> {
    if es == [] then owed
    else if es[0].answers.None? then StillOwed(owed, es[1..])
    else StillOwed(owed - {es[0].answers.value}, es[1..])
  }

  /** What the firmware may do during a call: it answers a request once, and only after it was made. */
  predicate Possible(link: Link, call: Call) {
    match call
    case Execute(emitted, events, late) =>
      && (forall i :: 0 <= i < |emitted| ==> emitted[i].WellSorted())
      && AnswersOwed(link.owed + {link.next}, emitted)
      && DataOf(events) + late == link.wire + Flatten(Raws(emitted))
    case Receive(emitted, events, late) =>
      && (forall i :: 0 <= i < |emitted| ==> emitted[i].WellSorted())
      && AnswersOwed(link.owed, emitted)
      && DataOf(events) + late == link.wire + Flatten(Raws(emitted))
    case _ => true
  }

  /** The host's discipline: after a failed request the port is reopened before anything else. */
  predicate Disciplined(link: Link, call: Call) {
    link.broken ==> call.Reopen? || call.ReopenFails?
  }

  function Drop(es: seq<Emitted>, n: nat): seq<Emitted> {
    if n <= |es| then es[n..] else []
  }

  function After(link: Link, call: Call): Link {
    match call
    case Execute(emitted, events, late) =>
      var a := Awaited(link.inbuf, events);
      Link(a.inbuf, DataOf(a.events) + late, Drop(link.frames + emitted, a.taken),
           StillOwed(link.owed + {link.next}, emitted), link.next + 1, a.message.Err?)
    case Unsent => link.(next := link.next + 1, broken := true)
    case Receive(emitted, events, late) =>
      var o := Received(link.inbuf, events, false);
      var taken := if FrameRead(link.inbuf, events, false).frame.Ok? then 1 else 0;
      Link(o.inbuf, DataOf(o.events) + late, Drop(link.frames + emitted, taken),
           StillOwed(link.owed, emitted), link.next, link.broken)
    case Reopen => Link([], [], [], {}, link.next, false)
    case ReopenFails => link
  }

  /** A call that succeeds does what its caller takes it to do. */
  ghost predicate Correct(link: Link, call: Call) {
    match call
    case Execute(emitted, events, _) =>
      var r := Awaited(link.inbuf, events).message;
      r.Ok? ==> exists e :: e in link.frames + emitted && e.answers == Some(link.next) && ParsedMessage(e.raw) == r
    case Receive(_, events, _) =>
      var r := Received(link.inbuf, events, false).message;
      r.Ok? ==> !r.value.kind.Response?
    case _ => true
  }

  function LinkAfter(calls: seq<Call>): Link {
    if calls == [] then FRESH else After(LinkAfter(calls[..|calls| - 1]), calls[|calls| - 1])
  }

  ghost predicate PossibleRun(calls: seq<Call>) {
    forall i :: 0 <= i < |calls| ==> Possible(LinkAfter(calls[..i]), calls[i])
  }

  ghost predicate DisciplinedRun(calls: seq<Call>) {
    forall i :: 0 <= i < |calls| ==> Disciplined(LinkAfter(calls[..i]), calls[i])
  }

  // ---------------------------------------------------------------- frames in flight

  ghost predicate NoAnswers(es: seq<Emitted>) {
    forall i :: 0 <= i < |es| ==> es[i].answers.None?
  }

  /** The buffer and the bytes in flight spell the frames not yet taken, on any run. */
  ghost predicate Consistent(link: Link) {
    && link.inbuf + link.wire == Flatten(Raws(link.frames))
    && (forall i :: 0 <= i < |link.frames| ==> link.frames[i].WellSorted())
  }

  /** No request is owed an answer and none is in flight. */
  ghost predicate Clear(link: Link) {
    link.owed == {} && NoAnswers(link.frames)
  }

  /** Between calls of a disciplined run nothing is owed and no answer is in flight. */
  ghost predicate Quiescent(link: Link) {
    Consistent(link) && (!link.broken ==> Clear(link))
  }

  lemma {:induction false} FlattenConcat(a: seq<seq<byte>>, b: seq<seq<byte>>)
    ensures Flatten(a + b) == Flatten(a) + Flatten(b)
    decreases |a|
  {
    if a == [] {
      assert a + b == b && [] + Flatten(b) == Flatten(b);
    } else {
      assert (a + b)[1..] == a[1..] + b;
      FlattenConcat(a[1..], b);
      Associate(a[0], Flatten(a[1..]), Flatten(b));
    }
  }

  lemma {:induction false} RawsConcat(a: seq<Emitted>, b: seq<Emitted>)
    ensures Raws(a + b) == Raws(a) + Raws(b)
  {
  }

  lemma {:induction false} RawsSlice(es: seq<Emitted>, n: nat)
    requires n <= |es|
    ensures Raws(es)[..n] == Raws(es[..n]) && Raws(es)[n..] == Raws(es[n..])
  {
    assert es == es[..n] + es[n..];
    RawsConcat(es[..n], es[n..]);
  }

  /** Cutting a stream of frames anywhere leaves some of its frames whole at the front. */
  lemma {:induction false} FramesOfPrefix(s: seq<byte>, late: seq<byte>, raws: seq<seq<byte>>)
    requires forall i :: 0 <= i < |raws| ==> IsFrame(raws[i])
    requires s + late == Flatten(raws)
    ensures FramesOf(s) <= raws
    decreases |raws|
  {
    if NextFrame(s).Whole? {
      NextFrameExtends(s, late);
      assert raws != [];
      NextFrameExtends(raws[0], Flatten(raws[1..]));
      var n := |raws[0]|;
      assert NextFrame(s) == Whole(n);
      assert s[..n] == (s + late)[..n] == raws[0];
      assert s[n..] + late == (s + late)[n..] == Flatten(raws[1..]);
      FramesOfPrefix(s[n..], late, raws[1..]);
      assert raws == [raws[0]] + raws[1..];
    }
  }

  /** The stream a call sees, with what comes late, spells the frames in flight and those emitted. */
  lemma {:induction false} StreamSpellsFrames(link: Link, emitted: seq<Emitted>, events: seq<Event>, late: seq<byte>)
    requires Consistent(link)
    requires DataOf(events) + late == link.wire + Flatten(Raws(emitted))
    ensures (link.inbuf + DataOf(events)) + late == Flatten(Raws(link.frames + emitted))
  {
    Associate(link.inbuf, DataOf(events), late);
    Associate(link.inbuf, link.wire, Flatten(Raws(emitted)));
    RawsConcat(link.frames, emitted);
    FlattenConcat(Raws(link.frames), Raws(emitted));
  }

  /** Taking `n` frames off a stream leaves a stream that spells the others. */
  lemma {:induction false} RemainderSpells(stream: seq<byte>, late: seq<byte>, raws: seq<seq<byte>>, n: nat, remainder: seq<byte>)
    requires n <= |raws| && stream + late == Flatten(raws)
    requires stream == Flatten(raws[..n]) + remainder
    ensures remainder + late == Flatten(raws[n..])
  {
    var front := Flatten(raws[..n]);
    assert raws == raws[..n] + raws[n..];
    FlattenConcat(raws[..n], raws[n..]);
    Associate(front, remainder, late);
    CancelFront(front, remainder + late, Flatten(raws[n..]));
  }

  // ---------------------------------------------------------------- one request

  /** What waiting for a response takes and leaves, when the stream spells `raws` from its start. */
  lemma {:induction false} AwaitedTakesRaws(inbuf: seq<byte>, events: seq<Event>, late: seq<byte>, raws: seq<seq<byte>>)
    requires inbuf + DataOf(events) + late == Flatten(raws)
    requires forall i :: 0 <= i < |raws| ==> IsFrame(raws[i])
    ensures var a := Awaited(inbuf, events);
            a.taken <= |raws| && a.inbuf + DataOf(a.events) + late == Flatten(raws[a.taken..])
  {
    var a := Awaited(inbuf, events);
    FramesOfPrefix(inbuf + DataOf(events), late, raws);
    AwaitedTakesFrames(inbuf, events);
    var fs := FramesOf(inbuf + DataOf(events));
    assert fs[..a.taken] == raws[..a.taken];
    RemainderSpells(inbuf + DataOf(events), late, raws, a.taken, a.inbuf + DataOf(a.events));
  }

  /** The messages it skips, and where its outcome is from. */
  lemma {:induction false} AwaitedExplained(inbuf: seq<byte>, events: seq<Event>, late: seq<byte>, raws: seq<seq<byte>>)
    requires inbuf + DataOf(events) + late == Flatten(raws)
    requires forall i :: 0 <= i < |raws| ==> IsFrame(raws[i])
    ensures var a := Awaited(inbuf, events); Explains(raws, a.skipped, a.taken, a.message)
  {
    FramesOfPrefix(inbuf + DataOf(events), late, raws);
    AwaitedTakesFrames(inbuf, events);
    var fs := FramesOf(inbuf + DataOf(events));
    assert forall i :: 0 <= i < |fs| ==> fs[i] == raws[i];
  }

  lemma {:induction false} RawsAreFrames(es: seq<Emitted>)
    requires forall i :: 0 <= i < |es| ==> es[i].WellSorted()
    ensures forall i :: 0 <= i < |es| ==> IsFrame(Raws(es)[i])
  {
  }

  lemma {:induction false} AwaitedTakesEmitted(inbuf: seq<byte>, events: seq<Event>, late: seq<byte>, es: seq<Emitted>)
    requires inbuf + DataOf(events) + late == Flatten(Raws(es))
    requires forall i :: 0 <= i < |Raws(es)| ==> IsFrame(Raws(es)[i])
    ensures var a := Awaited(inbuf, events);
            a.taken <= |es| && a.inbuf + (DataOf(a.events) + late) == Flatten(Raws(es[a.taken..]))
  {
    var a := Awaited(inbuf, events);
    AwaitedTakesRaws(inbuf, events, late, Raws(es));
    RawsSlice(es, a.taken);
    Associate(a.inbuf, DataOf(a.events), late);
  }

  lemma {:induction false} WellSortedSkips(es: seq<Emitted>, skipped: seq<Message>)
    requires |skipped| <= |es|
    requires forall i :: 0 <= i < |es| ==> es[i].WellSorted()
    requires forall i :: 0 <= i < |skipped| ==> ParsedMessage(es[i].raw) == Ok(skipped[i])
    requires forall i :: 0 <= i < |skipped| ==> !skipped[i].kind.Response?
    ensures forall i :: 0 <= i < |skipped| ==> es[i].answers.None?
  {
  }

  /**
   * What a request that waits on a consistent link takes: some frames in order, none of those
   * skipped an answer, and on success the last one is the first answer among them.
   */
  lemma {:induction false} ExecuteTakes(link: Link, call: Call)
    requires Consistent(link) && call.Execute? && Possible(link, call)
    ensures var a := Awaited(link.inbuf, call.events);
            var es := link.frames + call.emitted;
            && a.taken <= |es|
            && a.inbuf + (DataOf(a.events) + call.late) == Flatten(Raws(es[a.taken..]))
            && (a.message.Ok? ==> && a.taken > 0
                                  && (forall i :: 0 <= i < a.taken - 1 ==> es[i].answers.None?)
                                  && es[a.taken - 1].answers.Some?
                                  && ParsedMessage(es[a.taken - 1].raw) == a.message)
  {
    var es := link.frames + call.emitted;
    var a := Awaited(link.inbuf, call.events);
    StreamSpellsFrames(link, call.emitted, call.events, call.late);
    RawsAreFrames(es);
    AwaitedTakesEmitted(link.inbuf, call.events, call.late, es);
    AwaitedExplained(link.inbuf, call.events, call.late, Raws(es));
    SkippedAreNotResponses(link.inbuf, call.events);
    WellSortedSkips(es, a.skipped);
  }

  lemma {:induction false} ReceivedTakesRaws(inbuf: seq<byte>, events: seq<Event>, late: seq<byte>, raws: seq<seq<byte>>)
    requires inbuf + DataOf(events) + late == Flatten(raws)
    requires forall i :: 0 <= i < |raws| ==> IsFrame(raws[i])
    ensures var read := FrameRead(inbuf, events, false);
            var n := if read.frame.Ok? then 1 else 0;
            && n <= |raws|
            && read.inbuf + DataOf(read.events) + late == Flatten(raws[n..])
            && (read.frame.Ok? ==> raws[0] == read.frame.value)
  {
    var stream := inbuf + DataOf(events);
    var read := FrameRead(inbuf, events, false);
    FramesOfPrefix(stream, late, raws);
    FirstFrame(inbuf, events, false);
    if read.frame.Ok? {
      var f := read.frame.value;
      assert FramesOf(stream)[0] == f == raws[0];
      assert raws[..1] == [f];
      assert Flatten([f]) == f + Flatten([]) == f;
      RemainderSpells(stream, late, raws, 1, read.inbuf + DataOf(read.events));
    } else {
      assert raws[0..] == raws;
    }
  }

  lemma {:induction false} ReceivedTakesEmitted(inbuf: seq<byte>, events: seq<Event>, late: seq<byte>, es: seq<Emitted>)
    requires inbuf + DataOf(events) + late == Flatten(Raws(es))
    requires forall i :: 0 <= i < |es| ==> IsFrame(es[i].raw)
    ensures var read := FrameRead(inbuf, events, false);
            var n := if read.frame.Ok? then 1 else 0;
            && n <= |es|
            && read.inbuf + (DataOf(read.events) + late) == Flatten(Raws(es[n..]))
            && (read.frame.Ok? ==> es[0].raw == read.frame.value)
  {
    var read := FrameRead(inbuf, events, false);
    ReceivedTakesRaws(inbuf, events, late, Raws(es));
    RawsSlice(es, if read.frame.Ok? then 1 else 0);
    Associate(read.inbuf, DataOf(read.events), late);
  }

  lemma {:induction false} ReceiveTakes(link: Link, call: Call)
    requires Consistent(link) && call.Receive? && Possible(link, call)
    ensures var read := FrameRead(link.inbuf, call.events, false);
            var n := if read.frame.Ok? then 1 else 0;
            var es := link.frames + call.emitted;
            && n <= |es|
            && read.inbuf + (DataOf(read.events) + call.late) == Flatten(Raws(es[n..]))
            && (read.frame.Ok? ==> es[0].raw == read.frame.value)
            && (forall i :: 0 <= i < |es| ==> es[i].WellSorted())
  {
    StreamSpellsFrames(link, call.emitted, call.events, call.late);
    ReceivedTakesEmitted(link.inbuf, call.events, call.late, link.frames + call.emitted);
  }

  /** With only one request owed an answer, at most one answer comes, and it is to that request. */
  lemma {:induction false} OneAnswerAtMost(id: nat, owed: set<nat>, es: seq<Emitted>, k: nat)
    requires AnswersOwed(owed, es) && owed <= {id} && k < |es| && es[k].answers.Some?
    ensures es[k].answers == Some(id)
    ensures NoAnswers(es[k + 1..])
    ensures StillOwed(owed, es) == {}
    decreases |es|
  {
    if k == 0 {
      assert owed - {id} == {};
      NothingOwed(es[1..]);
    } else {
      assert es[1..][k - 1] == es[k] && es[1..][k..] == es[k + 1..];
      var after := if es[0].answers.None? then owed else owed - {es[0].answers.value};
      OneAnswerAtMost(id, after, es[1..], k - 1);
    }
  }

  lemma {:induction false} NothingOwed(es: seq<Emitted>)
    requires AnswersOwed({}, es)
    ensures NoAnswers(es) && StillOwed({}, es) == {}
    decreases |es|
  {
    if es != [] {
      NothingOwed(es[1..]);
      forall i | 0 <= i < |es| ensures es[i].answers.None? {
        if i > 0 {
          assert es[i] == es[1..][i - 1];
        }
      }
    }
  }

  /** On a quiescent link the answer a request takes is its own, and no other is left. */
  lemma {:induction false} TakenAnswerIsOwn(es: seq<Emitted>, frames: seq<Emitted>, emitted: seq<Emitted>, id: nat, taken: nat)
    requires es == frames + emitted && NoAnswers(frames) && AnswersOwed({id}, emitted)
    requires 0 < taken <= |es| && es[taken - 1].answers.Some?
    ensures es[taken - 1].answers == Some(id)
    ensures NoAnswers(es[taken..]) && StillOwed({id}, emitted) == {}
  {
    var k := taken - 1 - |frames|;
    assert k >= 0 && es[taken - 1] == emitted[k];
    OneAnswerAtMost(id, {id}, emitted, k);
    assert es[taken..] == emitted[k + 1..];
  }

  lemma {:induction false} ExecuteKeepsConsistent(link: Link, call: Call)
    requires Consistent(link) && call.Execute? && Possible(link, call)
    ensures Consistent(After(link, call))
  {
    ExecuteTakes(link, call);
    assert forall i :: 0 <= i < |link.frames + call.emitted| ==> (link.frames + call.emitted)[i].WellSorted();
  }

  lemma {:induction false} ClearTakesOwn(link: Link, call: Call)
    requires Consistent(link) && Clear(link) && call.Execute? && Possible(link, call)
    requires Awaited(link.inbuf, call.events).message.Ok?
    ensures TakenAnswer(link, call) == Some(link.next)
    ensures NoAnswers(Drop(link.frames + call.emitted, Awaited(link.inbuf, call.events).taken))
    ensures StillOwed(link.owed + {link.next}, call.emitted) == {}
  {
    ExecuteTakes(link, call);
    assert link.owed + {link.next} == {link.next};
    TakenAnswerIsOwn(link.frames + call.emitted, link.frames, call.emitted, link.next,
                     Awaited(link.inbuf, call.events).taken);
  }

  /** With nothing owed or in flight a success is the request's own, and again leaves nothing. */
  lemma {:induction false} ClearExecute(link: Link, call: Call)
    requires Consistent(link) && Clear(link) && call.Execute? && Possible(link, call)
    ensures Correct(link, call)
    ensures !After(link, call).broken ==> Clear(After(link, call)) && TakenAnswer(link, call) == Some(link.next)
  {
    if Awaited(link.inbuf, call.events).message.Ok? {
      ClearTakesOwn(link, call);
      TakenFrameIsReturned(link, call);
      assert TakenFrame(link, call).value in link.frames + call.emitted;
    }
  }

  lemma {:induction false} ClearReceive(link: Link, call: Call)
    requires Consistent(link) && Clear(link) && call.Receive? && Possible(link, call)
    ensures Correct(link, call) && Consistent(After(link, call)) && Clear(After(link, call))
  {
    ReceiveTakes(link, call);
    NothingOwed(call.emitted);
    var es := link.frames + call.emitted;
    assert NoAnswers(es);
    if FrameRead(link.inbuf, call.events, false).frame.Ok? {
      assert es[0].WellSorted() && es[0].answers.None?;
    }
  }

  /** On a quiescent link every call is correct and, disciplined, leaves the link quiescent. */
  lemma {:induction false} QuiescentStep(link: Link, call: Call)
    requires Quiescent(link) && Possible(link, call) && Disciplined(link, call)
    ensures Correct(link, call) && Quiescent(After(link, call))
  {
    match call
    case Execute(_, _, _) =>
      ExecuteKeepsConsistent(link, call);
      ClearExecute(link, call);
    case Receive(_, _, _) => ClearReceive(link, call);
    case Unsent =>
    case ReopenFails =>
    case Reopen =>
      assert Flatten(Raws([])) == [];
  }

  lemma {:induction false} DisciplinedIsQuiescent(calls: seq<Call>)
    requires PossibleRun(calls) && DisciplinedRun(calls)
    ensures Quiescent(LinkAfter(calls))
    decreases |calls|
  {
    if calls == [] {
      assert Flatten(Raws([])) == [];
    } else {
      var front := calls[..|calls| - 1];
      forall i | 0 <= i < |front| ensures Possible(LinkAfter(front[..i]), front[i]) && Disciplined(LinkAfter(front[..i]), front[i]) {
        assert front[..i] == calls[..i];
      }
      DisciplinedIsQuiescent(front);
      QuiescentStep(LinkAfter(front), calls[|calls| - 1]);
    }
  }

  /**
   * Correlation, over every run: if the port is reopened after each failed request before the next
   * call, every request that succeeds returns the response to itself, and a plain receive between
   * requests never returns a response, however the bytes are cut up and whatever else is emitted.
   */
  lemma {:induction false} Correlation(calls: seq<Call>, i: nat)
    requires PossibleRun(calls) && DisciplinedRun(calls) && i < |calls|
    ensures Correct(LinkAfter(calls[..i]), calls[i])
  {
    forall j | 0 <= j < i ensures Possible(LinkAfter(calls[..i][..j]), calls[..i][j]) && Disciplined(LinkAfter(calls[..i][..j]), calls[..i][j]) {
      assert calls[..i][..j] == calls[..j];
    }
    DisciplinedIsQuiescent(calls[..i]);
    QuiescentStep(LinkAfter(calls[..i]), calls[i]);
  }

  // ---------------------------------------------------------------- without the discipline

  lemma {:induction false} FirstAnswerIsUnique(es: seq<Emitted>, k: nat, n: nat)
    requires k < |es| && es[k].answers.Some? && NoAnswers(es[..k])
    requires n < |es| && es[n].answers.Some? && forall i :: 0 <= i < n ==> es[i].answers.None?
    ensures n == k
  {
    assert forall i :: 0 <= i < k ==> es[i] == es[..k][i];
  }

  /** The frame whose message a successful call returns. */
  function TakenFrame(link: Link, call: Call): Option<Emitted>
    requires call.Execute?
  {
    var es := link.frames + call.emitted;
    var taken := Awaited(link.inbuf, call.events).taken;
    if 0 < taken <= |es| then Some(es[taken - 1]) else None
  }

  /** The request whose answer a successful call returns. */
  function TakenAnswer(link: Link, call: Call): Option<nat>
    requires call.Execute?
  {
    match TakenFrame(link, call)
    case Some(e) => e.answers
    case None => None
  }

  lemma {:induction false} TakenFrameIsReturned(link: Link, call: Call)
    requires Consistent(link) && call.Execute? && Possible(link, call)
    requires Awaited(link.inbuf, call.events).message.Ok?
    ensures TakenFrame(link, call).Some?
    ensures ParsedMessage(TakenFrame(link, call).value.raw) == Awaited(link.inbuf, call.events).message
  {
    ExecuteTakes(link, call);
    var e := (link.frames + call.emitted)[Awaited(link.inbuf, call.events).taken - 1];
    assert TakenFrame(link, call) == Some(e);
  }

  /** On any run, an answer still in flight is what the next successful request takes for its own. */
  lemma {:induction false} StaleAnswerIsTaken(link: Link, call: Call, k: nat)
    requires Consistent(link) && call.Execute? && Possible(link, call)
    requires k < |link.frames| && link.frames[k].answers.Some? && NoAnswers(link.frames[..k])
    requires Awaited(link.inbuf, call.events).message.Ok?
    ensures TakenAnswer(link, call) == link.frames[k].answers
  {
    ExecuteTakes(link, call);
    assert (link.frames + call.emitted)[..k] == link.frames[..k];
    FirstAnswerIsUnique(link.frames + call.emitted, k, Awaited(link.inbuf, call.events).taken - 1);
  }

  /** Requests are numbered in order, and nothing refers to a request not yet made. */
  ghost predicate Numbered(link: Link) {
    && (forall id :: id in link.owed ==> id < link.next)
    && forall i :: 0 <= i < |link.frames| && link.frames[i].answers.Some? ==> link.frames[i].answers.value < link.next
  }

  lemma {:induction false} AnswersAreOwed(owed: set<nat>, es: seq<Emitted>)
    requires AnswersOwed(owed, es)
    ensures forall i :: 0 <= i < |es| && es[i].answers.Some? ==> es[i].answers.value in owed
    ensures StillOwed(owed, es) <= owed
    decreases |es|
  {
    if es != [] {
      var after := if es[0].answers.None? then owed else owed - {es[0].answers.value};
      AnswersAreOwed(after, es[1..]);
      assert forall i :: 1 <= i < |es| ==> es[i] == es[1..][i - 1];
    }
  }

  lemma {:induction false} AnyExecute(link: Link, call: Call)
    requires Consistent(link) && Numbered(link) && Possible(link, call) && call.Execute?
    ensures Consistent(After(link, call)) && Numbered(After(link, call))
  {
    ExecuteKeepsConsistent(link, call);
    ExecuteTakes(link, call);
    NumberedSuffix(link.frames, call.emitted, Awaited(link.inbuf, call.events).taken, link.owed + {link.next}, link.next + 1);
  }

  lemma {:induction false} AnyReceive(link: Link, call: Call)
    requires Consistent(link) && Numbered(link) && Possible(link, call) && call.Receive?
    ensures Consistent(After(link, call)) && Numbered(After(link, call))
  {
    ReceiveTakes(link, call);
    var n := if FrameRead(link.inbuf, call.events, false).frame.Ok? then 1 else 0;
    NumberedSuffix(link.frames, call.emitted, n, link.owed, link.next);
  }

  lemma {:induction false} NumberedSuffix(frames: seq<Emitted>, emitted: seq<Emitted>, n: nat, owed: set<nat>, next: nat)
    requires n <= |frames + emitted| && AnswersOwed(owed, emitted)
    requires forall id :: id in owed ==> id < next
    requires forall i :: 0 <= i < |frames| && frames[i].answers.Some? ==> frames[i].answers.value < next
    ensures var left := (frames + emitted)[n..];
            forall i :: 0 <= i < |left| && left[i].answers.Some? ==> left[i].answers.value < next
    ensures forall id :: id in StillOwed(owed, emitted) ==> id < next
  {
    AnswersAreOwed(owed, emitted);
    var es := frames + emitted;
    forall i | n <= i < |es| && es[i].answers.Some? ensures es[i].answers.value < next {
      if i < |frames| {
        assert es[i] == frames[i];
      } else {
        assert es[i] == emitted[i - |frames|];
      }
    }
  }

  /** On any possible step, disciplined or not, the link stays consistent and numbered. */
  lemma {:induction false} AnyStep(link: Link, call: Call)
    requires Consistent(link) && Numbered(link) && Possible(link, call)
    ensures Consistent(After(link, call)) && Numbered(After(link, call))
  {
    match call
    case Execute(_, _, _) => AnyExecute(link, call);
    case Receive(_, _, _) => AnyReceive(link, call);
    case Unsent =>
    case ReopenFails =>
    case Reopen =>
      assert Flatten(Raws([])) == [];
  }

  lemma {:induction false} AnyRun(calls: seq<Call>)
    requires PossibleRun(calls)
    ensures Consistent(LinkAfter(calls)) && Numbered(LinkAfter(calls))
    decreases |calls|
  {
    if calls == [] {
      assert Flatten(Raws([])) == [];
    } else {
      var front := calls[..|calls| - 1];
      forall i | 0 <= i < |front| ensures Possible(LinkAfter(front[..i]), front[i]) {
        assert front[..i] == calls[..i];
      }
      AnyRun(front);
      AnyStep(LinkAfter(front), calls[|calls| - 1]);
    }
  }

  /** The firmware answers the oldest request it owes an answer first. */
  predicate OldestFirst(owed: set<nat>, es: seq<Emitted>) {
    es == [] ||
    (if es[0].answers.None? then OldestFirst(owed, es[1..])
     else (forall id :: id in owed ==> es[0].answers.value <= id)
          && OldestFirst(owed - {es[0].answers.value}, es[1..]))
  }

  /** The first answer emitted is to the oldest request owed one. */
  lemma {:induction false} FirstAnswerIsOldest(owed: set<nat>, es: seq<Emitted>, k: nat)
    requires OldestFirst(owed, es) && k < |es| && es[k].answers.Some?
    requires forall i :: 0 <= i < k ==> es[i].answers.None?
    ensures forall id :: id in owed ==> es[k].answers.value <= id
    decreases |es|
  {
    if k > 0 {
      FirstAnswerIsOldest(owed, es[1..], k - 1);
    }
  }

  /**
   * Correlation, exactly: on every possible run, disciplined or not, of a firmware that answers in
   * order, a request that succeeds returns its own response if and only if nothing was outstanding
   * when it was made.
   */
  lemma {:induction false} OwnResponseIffClear(calls: seq<Call>, call: Call)
    requires PossibleRun(calls) && call.Execute? && Possible(LinkAfter(calls), call)
    requires OldestFirst(LinkAfter(calls).owed + {LinkAfter(calls).next}, call.emitted)
    requires Awaited(LinkAfter(calls).inbuf, call.events).message.Ok?
    ensures TakenAnswer(LinkAfter(calls), call) == Some(LinkAfter(calls).next) <==> Clear(LinkAfter(calls))
  {
    AnyRun(calls);
    OwnResponseIffClearOn(LinkAfter(calls), call);
  }

  lemma {:induction false} OwnResponseIffClearOn(link: Link, call: Call)
    requires Consistent(link) && Numbered(link) && call.Execute? && Possible(link, call)
    requires OldestFirst(link.owed + {link.next}, call.emitted)
    requires Awaited(link.inbuf, call.events).message.Ok?
    ensures TakenAnswer(link, call) == Some(link.next) <==> Clear(link)
  {
    TakenIsFirstAnswer(link, call);
    FirstAnswerIsOwnIffClear(link, call.emitted, Awaited(link.inbuf, call.events).taken - 1);
  }

  lemma {:induction false} TakenIsFirstAnswer(link: Link, call: Call)
    requires Consistent(link) && call.Execute? && Possible(link, call)
    requires Awaited(link.inbuf, call.events).message.Ok?
    ensures var es := link.frames + call.emitted;
            var k := Awaited(link.inbuf, call.events).taken - 1;
            && 0 <= k < |es| && TakenAnswer(link, call) == es[k].answers && es[k].answers.Some?
            && forall i :: 0 <= i < k ==> es[i].answers.None?
  {
    ExecuteTakes(link, call);
  }

  lemma {:induction false} FirstAnswerIsOwnIffClear(link: Link, emitted: seq<Emitted>, k: nat)
    requires Numbered(link) && AnswersOwed(link.owed + {link.next}, emitted)
    requires OldestFirst(link.owed + {link.next}, emitted)
    requires var es := link.frames + emitted;
             k < |es| && es[k].answers.Some? && forall i :: 0 <= i < k ==> es[i].answers.None?
    ensures (link.frames + emitted)[k].answers == Some(link.next) <==> Clear(link)
  {
    var es := link.frames + emitted;
    assert forall i :: 0 <= i < |link.frames| ==> es[i] == link.frames[i];
    if k < |link.frames| {
      assert es[k].answers.value < link.next;
    } else {
      var j := k - |link.frames|;
      assert forall i :: 0 <= i < j ==> emitted[i] == es[|link.frames| + i];
      assert emitted[j] == es[k];
      FirstAnswerIsOldest(link.owed + {link.next}, emitted, j);
      AnswersAreOwed(link.owed + {link.next}, emitted);
      if link.owed != {} {
        var id :| id in link.owed;
        assert es[k].answers.value <= id < link.next;
      }
    }
  }

  lemma {:induction false} EmptyResponse(c: u32, answers: Option<nat>)
    requires answers.Some?
    ensures Emitted(Packet(c, [], Sync), answers).WellSorted()
    ensures ParsedMessage(Packet(c, [], Sync)) == Ok(Message(TXID_SYNC, Response, c, [], []))
    ensures |Packet(c, [], Sync)| == 20
  {
    PacketIsFrame(c, [], Sync);
    PacketReadsBack(c, [], Sync);
    assert Decoded([]) == Ok([]);
  }

  /** A frame that arrives in one chunk, with more behind it, is read at once. */
  lemma {:induction false} OneChunkRead(f: seq<byte>, more: seq<byte>)
    requires IsFrame(f) && |f + more| <= READ_BUF_LEN
    ensures FrameRead([], [Read(f + more)], true) == Reading(Ok(f), more, [])
  {
    NextFrameExtends(f, more);
    var chunk: Chunk := f + more;
    assert |f| >= 20;
    assert [] + chunk == chunk;
    assert [Read(chunk)][1..] == [];
    assert chunk[..|f|] == f && chunk[|f|..] == more;
    assert FrameRead([], [Read(chunk)], true) == FrameRead(chunk, [], true);
  }

  /** The response to a timed-out request, arriving together with the one to its successor. */
  function LateAnswers(c0: u32, c1: u32): seq<Emitted> {
    [Emitted(Packet(c0, [], Sync), Some(0)), Emitted(Packet(c1, [], Sync), Some(1))]
  }

  function SkippedReopen(c0: u32, c1: u32): seq<Call> {
    var p := Packet(c0, [], Sync) + Packet(c1, [], Sync);
    [Execute([], [Quiet], []), Execute(LateAnswers(c0, c1), [Read(if |p| <= READ_BUF_LEN then p else [])], [])]
  }

  lemma {:induction false} LateAnswersSpell(c0: u32, c1: u32)
    ensures Flatten(Raws(LateAnswers(c0, c1))) == Packet(c0, [], Sync) + Packet(c1, [], Sync)
    ensures AnswersOwed({0, 1}, LateAnswers(c0, c1))
  {
    var es := LateAnswers(c0, c1);
    assert es[1..] == [es[1]] && es[1..][1..] == [];
    assert Raws(es) == [es[0].raw, es[1].raw];
    assert Raws(es)[1..] == [es[1].raw];
    assert Flatten([es[1].raw]) == es[1].raw + Flatten([]) == es[1].raw;
    assert {0, 1} - {0} == {1};
    assert AnswersOwed({1}, [es[1]]) by {
      assert [es[1]][1..] == [];
    }
  }

  /** The link after the first request of `SkippedReopen`: one answer owed, and broken. */
  lemma {:induction false} FirstTimesOut(c0: u32, c1: u32)
    ensures var calls := SkippedReopen(c0, c1);
            && LinkAfter(calls[..0]) == FRESH && Possible(FRESH, calls[0]) && Disciplined(FRESH, calls[0])
            && LinkAfter(calls[..1]) == Link([], [], [], {0}, 1, true)
  {
    var calls := SkippedReopen(c0, c1);
    assert calls[..0] == [];
    assert calls[..1] == [calls[0]] && calls[..1][..0] == [];
    assert [Quiet][1..] == [];
    assert DataOf([Quiet]) == [] + DataOf([]) == [];
    assert FrameRead([], [Quiet], true) == Reading(Err(Timeout), [], []);
    assert LinkAfter(calls[..1]) == After(FRESH, calls[0]);
    assert {} + {0} == {0};
  }

  /** The second request takes the answer to the first. */
  lemma {:induction false} SecondTakesFirst(c0: u32, c1: u32, link: Link)
    requires link == Link([], [], [], {0}, 1, true)
    ensures var call := SkippedReopen(c0, c1)[1];
            && call == Execute(LateAnswers(c0, c1), [Read(Packet(c0, [], Sync) + Packet(c1, [], Sync))], [])
            && Possible(link, call)
            && Awaited([], call.events).message == Ok(Message(TXID_SYNC, Response, c0, [], []))
  {
    var p0, p1 := Packet(c0, [], Sync), Packet(c1, [], Sync);
    EmptyResponse(c0, Some(0));
    EmptyResponse(c1, Some(1));
    LateAnswersSpell(c0, c1);
    var read: Chunk := p0 + p1;
    assert [Read(read)][1..] == [];
    assert DataOf([Read(read)]) == read + DataOf([]) == read;
    assert {0} + {1} == {0, 1};
    OneChunkRead(p0, p1);
    assert read + [] == [] + read;
  }

  lemma {:induction false} FirstAnswerIsNotOwn(c0: u32, c1: u32, link: Link)
    requires c0 != c1 && link == Link([], [], [], {0}, 1, true)
    ensures !Correct(link, SkippedReopen(c0, c1)[1])
  {
    SecondTakesFirst(c0, c1, link);
    EmptyResponse(c1, Some(1));
    var es := link.frames + LateAnswers(c0, c1);
    assert es == LateAnswers(c0, c1);
    forall e | e in es && e.answers == Some(1)
      ensures ParsedMessage(e.raw) == Ok(Message(TXID_SYNC, Response, c1, [], []))
    {
      assert e == es[1];
    }
  }

  /**
   * The discipline is needed: for any two commands there is a possible run in which a request
   * times out, the next one is made without reopening, and it returns the response to the first.
   */
  lemma {:induction false} SkippedReopenMiscorrelates(c0: u32, c1: u32)
    requires c0 != c1
    ensures var calls := SkippedReopen(c0, c1);
            && PossibleRun(calls) && !DisciplinedRun(calls)
            && Awaited(LinkAfter(calls[..1]).inbuf, calls[1].events).message
               == Ok(Message(TXID_SYNC, Response, c0, [], []))
            && !Correct(LinkAfter(calls[..1]), calls[1])
  {
    FirstTimesOut(c0, c1);
    var link := LinkAfter(SkippedReopen(c0, c1)[..1]);
    SecondTakesFirst(c0, c1, link);
    FirstAnswerIsNotOwn(c0, c1, link);
    assert !Disciplined(link, SkippedReopen(c0, c1)[1]);
  }
}
