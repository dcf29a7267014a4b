/**
 * What a host can know about its session from outside.  `Outstanding` counts, from the outcomes of
 * the calls alone, the requests sent since the port was last opened that got no response; it is
 * what the firmware still owes and what is still in flight, and it decides whether the next
 * response is the request's own.
 */
module Debts {
  import opened Wrappers
  import opened ByteSeqs
  import opened Errors
  import opened Framing
  import opened Messages
  import opened Transport
  import opened Session

  /** What the outcome of a call other than a reopening adds to the count, on the host's buffer. */
  function Change(inbuf: seq<byte>, call: Call): int {
    match call
    case Execute(_, events, _) => if Awaited(inbuf, events).message.Ok? then 0 else 1
    case Receive(_, events, _) =>
      var r := Received(inbuf, events, false).message;
      if r.Ok? && r.value.kind.Response? then -1 else 0
    case _ => 0
  }

  /** Requests sent since the last reopening, less responses handed back since. */
  function Outstanding(calls: seq<Call>): int {
    if calls == [] then 0
    else
      var front, last := calls[..|calls| - 1], calls[|calls| - 1];
      if last.Reopen? then 0 else Outstanding(front) + Change(LinkAfter(front).inbuf, last)
  }

  /** The frames emitted during a call. */
  function EmittedIn(call: Call): seq<Emitted> {
    if call.Execute? || call.Receive? then call.emitted else []
  }

  /** Every answer among some frames can be read. */
  ghost predicate ReadableAnswers(es: seq<Emitted>) {
    forall i :: 0 <= i < |es| && es[i].answers.Some? ==> ParsedMessage(es[i].raw).Ok?
  }

  ghost predicate ReadableRun(calls: seq<Call>) {
    forall i :: 0 <= i < |calls| ==> ReadableAnswers(EmittedIn(calls[i]))
  }

  // ---------------------------------------------------------------- the firmware's side of the count

  function Answers(es: seq<Emitted>): nat {
    if es == [] then 0 else (if es[0].answers.Some? then 1 else 0) + Answers(es[1..])
  }

  /** The answers the firmware has yet to emit and those in flight. */
  function Debt(link: Link): nat {
    |link.owed| + Answers(link.frames)
  }

  lemma {:induction false} AnswersConcat(a: seq<Emitted>, b: seq<Emitted>)
    ensures Answers(a + b) == Answers(a) + Answers(b)
    decreases |a|
  {
    if a == [] {
      assert a + b == b;
    } else {
      assert (a + b)[1..] == a[1..] + b;
      AnswersConcat(a[1..], b);
    }
  }

  lemma {:induction false} AnswersCut(es: seq<Emitted>, n: nat)
    requires n <= |es|
    ensures Answers(es) == Answers(es[..n]) + Answers(es[n..])
  {
    assert es == es[..n] + es[n..];
    AnswersConcat(es[..n], es[n..]);
  }

  lemma {:induction false} AnswersNone(es: seq<Emitted>)
    ensures Answers(es) == 0 <==> NoAnswers(es)
    decreases |es|
  {
    if es != [] {
      AnswersNone(es[1..]);
      assert NoAnswers(es) <==> es[0].answers.None? && NoAnswers(es[1..]) by {
        assert forall i :: 1 <= i < |es| ==> es[i] == es[1..][i - 1];
      }
    }
  }

  lemma {:induction false} AnswersOne(e: Emitted)
    ensures Answers([e]) == if e.answers.Some? then 1 else 0
  {
    assert [e][1..] == [];
  }

  /** Every answer emitted settles one debt. */
  lemma {:induction false} AnswersSettle(owed: set<nat>, es: seq<Emitted>)
    requires AnswersOwed(owed, es)
    ensures |StillOwed(owed, es)| + Answers(es) == |owed|
    decreases |es|
  {
    if es != [] {
      AnswersSettle(if es[0].answers.None? then owed else owed - {es[0].answers.value}, es[1..]);
    }
  }

  /** Frames skipped are no answers; a frame beyond them counts if it is one. */
  lemma {:induction false} AnswersTaken(es: seq<Emitted>, n: nat, taken: nat)
    requires n <= taken <= |es| && taken <= n + 1 && NoAnswers(es[..n])
    ensures Answers(es[..taken]) == if taken == n + 1 && es[n].answers.Some? then 1 else 0
  {
    AnswersNone(es[..n]);
    if taken == n + 1 {
      assert es[..taken] == es[..n] + [es[n]];
      AnswersConcat(es[..n], [es[n]]);
      AnswersOne(es[n]);
    }
  }

  /** A request takes one answer if it succeeds, and none if it fails on readable answers. */
  lemma {:induction false} ExecuteTakesAnswers(link: Link, call: Call)
    requires Consistent(link) && call.Execute? && Possible(link, call)
    ensures var a := Awaited(link.inbuf, call.events);
            var es := link.frames + call.emitted;
            && a.taken <= |es|
            && (a.message.Ok? ==> Answers(es[..a.taken]) == 1)
            && (a.message.Err? ==> Answers(es[..a.taken]) <= 1)
            && (a.message.Err? && ReadableAnswers(es) ==> Answers(es[..a.taken]) == 0)
  {
    var a, es := Awaited(link.inbuf, call.events), link.frames + call.emitted;
    StreamSpellsFrames(link, call.emitted, call.events, call.late);
    RawsAreFrames(es);
    AwaitedExplained(link.inbuf, call.events, call.late, Raws(es));
    SkippedAreNotResponses(link.inbuf, call.events);
    WellSortedSkips(es, a.skipped);
    AnswersTaken(es, |a.skipped|, a.taken);
    ExecuteTakes(link, call);
  }

  /** A plain receive takes an answer exactly when it returns a response, on readable answers. */
  lemma {:induction false} ReceiveTakesAnswers(link: Link, call: Call)
    requires Consistent(link) && call.Receive? && Possible(link, call)
    ensures var n := if FrameRead(link.inbuf, call.events, false).frame.Ok? then 1 else 0;
            var es := link.frames + call.emitted;
            && n <= |es|
            && 0 <= Answers(es[..n]) + Change(link.inbuf, call)
            && (ReadableAnswers(es) ==> Answers(es[..n]) + Change(link.inbuf, call) == 0)
  {
    var read, es := FrameRead(link.inbuf, call.events, false), link.frames + call.emitted;
    ReceiveTakes(link, call);
    if read.frame.Ok? {
      assert es[..1] == [es[0]];
      AnswersOne(es[0]);
    }
  }

  /** What is left of some frames and what the firmware still owes, when `n` frames were taken. */
  lemma {:induction false} DebtLeft(frames: seq<Emitted>, emitted: seq<Emitted>, owed: set<nat>, n: nat)
    requires AnswersOwed(owed, emitted) && n <= |frames + emitted|
    ensures |StillOwed(owed, emitted)| + Answers((frames + emitted)[n..])
            == |owed| + Answers(frames) - Answers((frames + emitted)[..n])
  {
    AnswersConcat(frames, emitted);
    AnswersCut(frames + emitted, n);
    AnswersSettle(owed, emitted);
  }

  /**
   * What a call adds to the count bounds what it adds to the debt, and is just that when the answers
   * in flight can be read: of an unreadable frame the host cannot tell whether it was an answer.
   */
  lemma {:induction false} DebtStep(link: Link, call: Call)
    requires Consistent(link) && Numbered(link) && Possible(link, call) && !call.Reopen?
    ensures Debt(After(link, call)) <= Debt(link) + Change(link.inbuf, call)
    ensures ReadableAnswers(link.frames + EmittedIn(call)) ==>
              Debt(After(link, call)) == Debt(link) + Change(link.inbuf, call)
  {
    match call
    case Execute(emitted, events, _) =>
      ExecuteTakesAnswers(link, call);
      assert link.next !in link.owed;
      DebtLeft(link.frames, emitted, link.owed + {link.next}, Awaited(link.inbuf, events).taken);
    case Receive(emitted, events, _) =>
      ReceiveTakesAnswers(link, call);
      DebtLeft(link.frames, emitted, link.owed, if FrameRead(link.inbuf, events, false).frame.Ok? then 1 else 0);
    case Unsent =>
    case ReopenFails =>
  }

  // ---------------------------------------------------------------- runs

  lemma {:induction false} PrefixPossible(calls: seq<Call>, n: nat)
    requires PossibleRun(calls) && n <= |calls|
    ensures PossibleRun(calls[..n])
  {
    forall i | 0 <= i < n ensures Possible(LinkAfter(calls[..n][..i]), calls[..n][i]) {
      assert calls[..n][..i] == calls[..i];
    }
  }

  lemma {:induction false} ReadableJoins(frames: seq<Emitted>, emitted: seq<Emitted>, n: nat)
    requires ReadableAnswers(frames) && ReadableAnswers(emitted) && n <= |frames + emitted|
    ensures ReadableAnswers(frames + emitted) && ReadableAnswers((frames + emitted)[n..])
  {
  }

  /** Frames left by a call are readable when those before it and those emitted are. */
  lemma {:induction false} ReadableStep(link: Link, call: Call)
    requires Consistent(link) && Possible(link, call)
    requires ReadableAnswers(link.frames) && ReadableAnswers(EmittedIn(call))
    ensures ReadableAnswers(link.frames + EmittedIn(call)) && ReadableAnswers(After(link, call).frames)
  {
    ReadableJoins(link.frames, EmittedIn(call), 0);
    match call
    case Execute(emitted, events, _) =>
      ExecuteTakes(link, call);
      ReadableJoins(link.frames, emitted, Awaited(link.inbuf, events).taken);
    case Receive(emitted, events, _) =>
      ReceiveTakes(link, call);
      ReadableJoins(link.frames, emitted, if FrameRead(link.inbuf, events, false).frame.Ok? then 1 else 0);
    case _ =>
  }

  /**
   * On every run the count is at least what the firmware owes and what is in flight, and when its
   * answers can be read it is exactly that.
   */
  lemma {:induction false} DebtIsOutstanding(calls: seq<Call>)
    requires PossibleRun(calls)
    ensures Debt(LinkAfter(calls)) <= Outstanding(calls)
    ensures ReadableRun(calls) ==>
              Debt(LinkAfter(calls)) == Outstanding(calls) && ReadableAnswers(LinkAfter(calls).frames)
    decreases |calls|
  {
    if calls != [] {
      var n := |calls| - 1;
      var front := calls[..n];
      PrefixPossible(calls, n);
      AnyRun(front);
      DebtIsOutstanding(front);
      if !calls[n].Reopen? {
        DebtStep(LinkAfter(front), calls[n]);
        if ReadableRun(calls) {
          assert forall i :: 0 <= i < n ==> front[i] == calls[i];
          ReadableStep(LinkAfter(front), calls[n]);
        }
      }
    }
  }

  lemma {:induction false} ClearIsNoDebt(link: Link)
    ensures Clear(link) <==> Debt(link) == 0
  {
    AnswersNone(link.frames);
  }

  /**
   * With nothing outstanding the next call is correct, on every run: a request that succeeds returns
   * its own response, and a plain receive returns none.
   */
  lemma {:induction false} NothingOutstandingIsCorrect(calls: seq<Call>, call: Call)
    requires PossibleRun(calls) && Possible(LinkAfter(calls), call) && Outstanding(calls) == 0
    ensures Correct(LinkAfter(calls), call)
    ensures call.Execute? && Awaited(LinkAfter(calls).inbuf, call.events).message.Ok? ==>
              TakenAnswer(LinkAfter(calls), call) == Some(LinkAfter(calls).next)
  {
    var link := LinkAfter(calls);
    AnyRun(calls);
    DebtIsOutstanding(calls);
    ClearIsNoDebt(link);
    if call.Execute? {
      ClearExecute(link, call);
    } else if call.Receive? {
      ClearReceive(link, call);
    }
  }

  /** The discipline keeps the count at zero: only between a failure and the reopening is it more. */
  lemma {:induction false} DisciplinedIsSettled(calls: seq<Call>)
    requires PossibleRun(calls) && DisciplinedRun(calls)
    ensures !LinkAfter(calls).broken ==> Outstanding(calls) == 0
    decreases |calls|
  {
    if calls != [] {
      var n := |calls| - 1;
      var front, link := calls[..n], LinkAfter(calls[..n]);
      PrefixPossible(calls, n);
      forall i | 0 <= i < n ensures Disciplined(LinkAfter(front[..i]), front[i]) {
        assert front[..i] == calls[..i];
      }
      DisciplinedIsSettled(front);
      if !link.broken {
        NothingOutstandingIsCorrect(front, calls[n]);
      }
    }
  }

  /**
   * Correlation, exactly, by a condition the host can check before it sends: on every possible run
   * of a firmware whose answers can be read and come in order, disciplined or not, a request that
   * succeeds returns its own response if and only if nothing is outstanding.
   */
  lemma {:induction false} OwnResponseIffNothingOutstanding(calls: seq<Call>, call: Call)
    requires PossibleRun(calls) && ReadableRun(calls) && call.Execute? && Possible(LinkAfter(calls), call)
    requires OldestFirst(LinkAfter(calls).owed + {LinkAfter(calls).next}, call.emitted)
    requires Awaited(LinkAfter(calls).inbuf, call.events).message.Ok?
    ensures TakenAnswer(LinkAfter(calls), call) == Some(LinkAfter(calls).next) <==> Outstanding(calls) == 0
  {
    DebtIsOutstanding(calls);
    ClearIsNoDebt(LinkAfter(calls));
    OwnResponseIffClear(calls, call);
  }
}
