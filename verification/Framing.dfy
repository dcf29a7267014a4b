/**
 * Framing and reassembly: how an arbitrarily chunked byte stream becomes frames.  `FrameRead` is
 * what one `read_message` call does with its buffer and with what the port delivers; `FramesOf` is
 * the framing of a whole stream, and the two agree however the stream is cut up.
 */
module Framing {
  import opened Wrappers
  import opened ByteSeqs
  import opened Errors

  /** Upper bound on a single read. */
  const READ_BUF_LEN := 128 * 1024
  /** Sanity bound on a framed message. */
  const MAX_MESSAGE_LEN := 1024 * 1024

  /** What one read can return; an empty chunk is the end of the file. */
  type Chunk = c: seq<byte> | |c| <= READ_BUF_LEN

  /** What the port does next: deliver a chunk, fail, or stay quiet until a deadline passes. */
  datatype Event = Read(chunk: Chunk) | Fault | Quiet

  datatype Framing = Partial | Whole(total: nat) | Invalid(total: nat)

  /** What the length word at the front of a buffer says about it. */
  function NextFrame(buf: seq<byte>): Framing {
    if |buf| < 4 then Partial
    else
      var total := FromLe(buf[..4]) + 4;
      if !(20 <= total <= MAX_MESSAGE_LEN) then Invalid(total)
      else if |buf| >= total then Whole(total)
      else Partial
  }

  /** A complete frame and nothing else. */
  predicate IsFrame(f: seq<byte>) {
    NextFrame(f) == Whole(|f|)
  }

  /** The length word counts what follows it: 16 bytes at least, and less than a mebibyte with itself. */
  lemma {:induction false} LengthWordDecides(n: u32, rest: seq<byte>)
    ensures NextFrame(Le32(n) + rest)
            == if n < 16 || n > 1048572 then Invalid(n + 4) else if |rest| >= n then Whole(n + 4) else Partial
  {
    FromLeOfLe32(n);
    assert (Le32(n) + rest)[..4] == Le32(n);
  }

  /** All the bytes some events deliver. */
  function DataOf(events: seq<Event>): seq<byte> {
    if events == [] then []
    else (if events[0].Read? then events[0].chunk else []) + DataOf(events[1..])
  }

  /** The outcome of one call: a frame or an error, the buffer it leaves and the events still to come. */
  datatype Reading = Reading(frame: Result<seq<byte>, Error>, inbuf: seq<byte>, events: seq<Event>)

  /**
   * One call on a buffer.  Without a deadline the call outlasts quiet spells; when the recorded
   * events are exhausted the port is at end of file.
   */
  function FrameRead(inbuf: seq<byte>, events: seq<Event>, timed: bool): (o: Reading)
    ensures |o.events| <= |events|
    decreases |events|
  {
    match NextFrame(inbuf)
    case Invalid(total) => Reading(Err(Protocol(FrameLength(total))), inbuf, events)
    case Whole(total) => Reading(Ok(inbuf[..total]), inbuf[total..], events)
    case Partial =>
      if events == [] then Reading(Err(Protocol(PortClosed)), inbuf, [])
      else
        match events[0]
        case Fault => Reading(Err(Io), inbuf, events[1..])
        case Quiet =>
          if timed then Reading(Err(Timeout), inbuf, events[1..]) else FrameRead(inbuf, events[1..], timed)
        case Read(chunk) =>
          if chunk == [] then Reading(Err(Protocol(PortClosed)), inbuf, events[1..])
          else FrameRead(inbuf + chunk, events[1..], timed)
  }

  /** The bytes a call hands out. */
  function Delivered(o: Reading): seq<byte> {
    if o.frame.Ok? then o.frame.value else []
  }

  /** The frames at the front of a stream, up to an incomplete or impossible one. */
  function FramesOf(stream: seq<byte>): seq<seq<byte>>
    decreases |stream|
  {
    match NextFrame(stream)
    case Whole(total) => [stream[..total]] + FramesOf(stream[total..])
    case _ => []
  }

  function Flatten(frames: seq<seq<byte>>): seq<byte> {
    if frames == [] then [] else frames[0] + Flatten(frames[1..])
  }

  // ---------------------------------------------------------------- one call

  /** More input never changes what a decided buffer says. */
  lemma {:induction false} NextFrameExtends(buf: seq<byte>, more: seq<byte>)
    requires !NextFrame(buf).Partial?
    ensures NextFrame(buf + more) == NextFrame(buf)
  {
    assert (buf + more)[..4] == buf[..4];
  }

  /** `o` hands out the first frame of `stream`, or nothing, and leaves all the rest of it. */
  ghost predicate TakesFromFront(o: Reading, stream: seq<byte>) {
    if o.frame.Ok? then
      && NextFrame(stream) == Whole(|o.frame.value|)
      && o.frame.value == stream[..|o.frame.value|]
      && o.inbuf + DataOf(o.events) == stream[|o.frame.value|..]
    else
      o.inbuf + DataOf(o.events) == stream
  }

  lemma {:induction false} DecidedRead(inbuf: seq<byte>, events: seq<Event>, timed: bool)
    requires !NextFrame(inbuf).Partial?
    ensures TakesFromFront(FrameRead(inbuf, events, timed), inbuf + DataOf(events))
    ensures FrameRead(inbuf, events, timed).frame.Err? ==> FramesOf(inbuf + DataOf(events)) == []
  {
    var stream := inbuf + DataOf(events);
    NextFrameExtends(inbuf, DataOf(events));
    if NextFrame(inbuf).Whole? {
      var total := NextFrame(inbuf).total;
      assert stream[..total] == inbuf[..total];
      assert stream[total..] == inbuf[total..] + DataOf(events);
    }
  }

  /** The event a call consumes next, and the stream it leaves as it was. */
  lemma {:induction false} StreamAfterEvent(inbuf: seq<byte>, events: seq<Event>)
    requires events != []
    ensures inbuf + DataOf(events)
            == (if events[0].Read? then inbuf + events[0].chunk else inbuf) + DataOf(events[1..])
  {
    var delivered := if events[0].Read? then events[0].chunk else [];
    assert DataOf(events) == delivered + DataOf(events[1..]);
    Associate(inbuf, delivered, DataOf(events[1..]));
    assert inbuf + [] == inbuf;
  }

  /** A frame a call returns is the first frame of the stream, and the call leaves the rest of it. */
  lemma {:induction false} FirstFrame(inbuf: seq<byte>, events: seq<Event>, timed: bool)
    ensures TakesFromFront(FrameRead(inbuf, events, timed), inbuf + DataOf(events))
    ensures var o := FrameRead(inbuf, events, timed);
            o.frame.Err? && |o.events| == |events| ==> FramesOf(inbuf + DataOf(events)) == []
    decreases |events|
  {
    if !NextFrame(inbuf).Partial? {
      DecidedRead(inbuf, events, timed);
    } else if events == [] {
      assert inbuf + DataOf(events) == inbuf;
    } else {
      StreamAfterEvent(inbuf, events);
      if events[0].Quiet? && !timed {
        FirstFrame(inbuf, events[1..], timed);
      } else if events[0].Read? && events[0].chunk != [] {
        FirstFrame(inbuf + events[0].chunk, events[1..], timed);
      }
    }
  }

  /** No call loses, invents or reorders a byte, whatever its outcome. */
  lemma {:induction false} Conservation(inbuf: seq<byte>, events: seq<Event>, timed: bool)
    ensures var o := FrameRead(inbuf, events, timed);
            Delivered(o) + (o.inbuf + DataOf(o.events)) == inbuf + DataOf(events)
  {
    FirstFrame(inbuf, events, timed);
  }

  /** A call consumes the events it has seen and no others. */
  lemma {:induction false} EventsConsumedInOrder(inbuf: seq<byte>, events: seq<Event>, timed: bool)
    ensures var o := FrameRead(inbuf, events, timed);
            o.events == events[|events| - |o.events|..]
    decreases |events|
  {
    if NextFrame(inbuf).Partial? && events != [] {
      if events[0].Quiet? && !timed {
        EventsConsumedInOrder(inbuf, events[1..], timed);
      } else if events[0].Read? && events[0].chunk != [] {
        EventsConsumedInOrder(inbuf + events[0].chunk, events[1..], timed);
      }
    }
  }

  /** A call depends only on the events it consumes: cut off anywhere behind them, it ends the same. */
  lemma {:induction false} FrameReadLocal(inbuf: seq<byte>, events: seq<Event>, timed: bool, m: nat)
    requires |events| - |FrameRead(inbuf, events, timed).events| <= m <= |events|
    ensures var o := FrameRead(inbuf, events, timed);
            FrameRead(inbuf, events[..m], timed) == o.(events := events[|events| - |o.events|..m])
    decreases |events|
  {
    hide NextFrame;
    if NextFrame(inbuf).Partial? && events != [] {
      var o := FrameRead(inbuf, events, timed);
      assert m > 0 && events[..m][0] == events[0] && events[..m][1..] == events[1..][..m - 1];
      if (events[0].Quiet? && !timed) || (events[0].Read? && events[0].chunk != []) {
        var filled := if events[0].Read? then inbuf + events[0].chunk else inbuf;
        assert o == FrameRead(filled, events[1..], timed);
        FrameReadLocal(filled, events[1..], timed, m - 1);
        assert events[1..][|events| - 1 - |o.events|..m - 1] == events[|events| - |o.events|..m];
      } else {
        assert events[1..m] == events[..m][1..];
      }
    } else {
      assert events[0..m] == events[..m];
    }
  }

  // ---------------------------------------------------------------- how a call ends

  /** An event that a call reads on from: some bytes, or a quiet spell when there is no deadline. */
  predicate Passes(e: Event, timed: bool) {
    (e.Read? && e.chunk != []) || (e.Quiet? && !timed)
  }

  /** The buffer once `n` events have come in. */
  function BufferAfter(inbuf: seq<byte>, events: seq<Event>, n: nat): seq<byte>
    requires n <= |events|
  {
    inbuf + DataOf(events[..n])
  }

  /** A call reads on from each of the first `n` events, no frame being decided before them. */
  ghost predicate Fills(inbuf: seq<byte>, events: seq<Event>, timed: bool, n: nat) {
    && n <= |events|
    && forall m :: 0 <= m < n ==> Passes(events[m], timed) && NextFrame(BufferAfter(inbuf, events, m)).Partial?
  }

  /** The outcome of a call that stops behind `n` events. */
  ghost predicate StopsWith(inbuf: seq<byte>, events: seq<Event>, timed: bool, n: nat, r: Result<seq<byte>, Error>)
    requires n <= |events|
  {
    match NextFrame(BufferAfter(inbuf, events, n))
    case Whole(total) => r == Ok(BufferAfter(inbuf, events, n)[..total])
    case Invalid(total) => r == Err(Protocol(FrameLength(total)))
    case Partial =>
      if n == |events| || events[n] == Read([]) then r == Err(Protocol(PortClosed))
      else if events[n].Fault? then r == Err(Io)
      else timed && events[n].Quiet? && r == Err(Timeout)
  }

  lemma {:induction false} BufferAfterStep(inbuf: seq<byte>, events: seq<Event>, n: nat)
    requires 0 < n <= |events|
    ensures BufferAfter(inbuf, events, n)
            == BufferAfter(if events[0].Read? then inbuf + events[0].chunk else inbuf, events[1..], n - 1)
  {
    StreamAfterEvent(inbuf, events[..n]);
    assert events[..n][1..] == events[1..][..n - 1];
  }

  /** Reading on from the first event is reading the rest into what it adds to the buffer. */
  lemma {:induction false} FillsStep(inbuf: seq<byte>, events: seq<Event>, timed: bool, n: nat)
    requires events != [] && Passes(events[0], timed) && NextFrame(inbuf).Partial?
    requires Fills(if events[0].Read? then inbuf + events[0].chunk else inbuf, events[1..], timed, n)
    ensures Fills(inbuf, events, timed, n + 1)
  {
    hide NextFrame, BufferAfter;
    forall m | 0 <= m < n + 1 ensures Passes(events[m], timed) && NextFrame(BufferAfter(inbuf, events, m)).Partial? {
      if m == 0 {
        NothingRead(inbuf, events);
      } else {
        BufferAfterStep(inbuf, events, m);
        assert events[m] == events[1..][m - 1];
      }
    }
  }

  lemma {:induction false} NothingRead(inbuf: seq<byte>, events: seq<Event>)
    ensures BufferAfter(inbuf, events, 0) == inbuf
  {
    assert events[..0] == [] && inbuf + [] == inbuf;
  }

  /** Where a call stops, and with what. */
  lemma {:induction false} CallStops(inbuf: seq<byte>, events: seq<Event>, timed: bool) returns (n: nat)
    ensures Fills(inbuf, events, timed, n) && StopsWith(inbuf, events, timed, n, FrameRead(inbuf, events, timed).frame)
    decreases |events|
  {
    NothingRead(inbuf, events);
    n := 0;
    if NextFrame(inbuf).Partial? && events != [] && Passes(events[0], timed) {
      hide NextFrame, BufferAfter;
      var filled := if events[0].Read? then inbuf + events[0].chunk else inbuf;
      var m := CallStops(filled, events[1..], timed);
      FillsStep(inbuf, events, timed, m);
      BufferAfterStep(inbuf, events, m + 1);
      n := m + 1;
    }
  }

  lemma {:induction false} StopIsUnique(inbuf: seq<byte>, events: seq<Event>, timed: bool, n: nat, m: nat,
                                        r: Result<seq<byte>, Error>, q: Result<seq<byte>, Error>)
    requires Fills(inbuf, events, timed, n) && StopsWith(inbuf, events, timed, n, r)
    requires Fills(inbuf, events, timed, m) && StopsWith(inbuf, events, timed, m, q)
    ensures n == m && r == q
  {
    hide NextFrame, BufferAfter;
  }

  /**
   * How a call ends, exactly: with `r` if and only if it reads on up to some event and what is there
   * then, a decided buffer, a fault, the end of the file or, under a deadline, a quiet spell, says `r`.
   */
  lemma {:induction false} CallEndsExactly(inbuf: seq<byte>, events: seq<Event>, timed: bool, r: Result<seq<byte>, Error>)
    ensures FrameRead(inbuf, events, timed).frame == r <==>
              exists n: nat :: Fills(inbuf, events, timed, n) && StopsWith(inbuf, events, timed, n, r)
  {
    hide FrameRead, StopsWith, NextFrame, BufferAfter;
    var n := CallStops(inbuf, events, timed);
    forall m: nat | Fills(inbuf, events, timed, m) && StopsWith(inbuf, events, timed, m, r)
      ensures FrameRead(inbuf, events, timed).frame == r
    {
      StopIsUnique(inbuf, events, timed, n, m, FrameRead(inbuf, events, timed).frame, r);
    }
  }

  /** A timeout means a deadline, and a quiet spell before anything else ended the call. */
  lemma {:induction false} TimeoutExactly(inbuf: seq<byte>, events: seq<Event>, timed: bool)
    ensures FrameRead(inbuf, events, timed).frame == Err(Timeout) <==>
              timed && exists n: nat :: Fills(inbuf, events, timed, n) && n < |events| && events[n].Quiet?
                                        && NextFrame(BufferAfter(inbuf, events, n)).Partial?
  {
    hide FrameRead, NextFrame, BufferAfter;
    CallEndsExactly(inbuf, events, timed, Err(Timeout));
    forall n: nat | Fills(inbuf, events, timed, n)
      ensures StopsWith(inbuf, events, timed, n, Err(Timeout)) <==>
                timed && n < |events| && events[n].Quiet? && NextFrame(BufferAfter(inbuf, events, n)).Partial?
    {
    }
  }

  /** The events without the quiet spells. */
  function WithoutQuiet(events: seq<Event>): seq<Event> {
    if events == [] then []
    else (if events[0].Quiet? then [] else [events[0]]) + WithoutQuiet(events[1..])
  }

  /** Without a deadline quiet spells make no difference: a call outlasts them all. */
  lemma {:induction false} QuietIsOutlasted(inbuf: seq<byte>, events: seq<Event>, timed: bool)
    ensures var o := FrameRead(inbuf, events, false);
            FrameRead(inbuf, WithoutQuiet(events), timed) == o.(events := WithoutQuiet(o.events))
    decreases |events|
  {
    if NextFrame(inbuf).Partial? && events != [] {
      if events[0].Quiet? {
        assert WithoutQuiet(events) == WithoutQuiet(events[1..]);
        QuietIsOutlasted(inbuf, events[1..], timed);
      } else {
        assert WithoutQuiet(events)[1..] == WithoutQuiet(events[1..]);
        if events[0].Read? && events[0].chunk != [] {
          QuietIsOutlasted(inbuf + events[0].chunk, events[1..], timed);
        }
      }
    }
  }

  // ---------------------------------------------------------------- all calls

  /** The frames successive calls return, retrying after every error until nothing more can come. */
  function AllFrames(inbuf: seq<byte>, events: seq<Event>, timed: bool): seq<seq<byte>>
    decreases |inbuf| + |DataOf(events)| + |events|
  {
    var o := FrameRead(inbuf, events, timed);
    FirstFrame(inbuf, events, timed);
    if o.frame.Ok? then [o.frame.value] + AllFrames(o.inbuf, o.events, timed)
    else if |o.events| == |events| then []
    else AllFrames(o.inbuf, o.events, timed)
  }

  /**
   * Reassembly does not depend on chunking: for every buffer and every way of delivering bytes,
   * with timeouts and read errors anywhere in between, the frames successive calls return are the
   * frames of the byte stream.
   */
  lemma {:induction false} ChunkingIrrelevant(inbuf: seq<byte>, events: seq<Event>, timed: bool)
    ensures AllFrames(inbuf, events, timed) == FramesOf(inbuf + DataOf(events))
    decreases |inbuf| + |DataOf(events)| + |events|
  {
    var o := FrameRead(inbuf, events, timed);
    FirstFrame(inbuf, events, timed);
    if o.frame.Ok? {
      ChunkingIrrelevant(o.inbuf, o.events, timed);
    } else if |o.events| != |events| {
      ChunkingIrrelevant(o.inbuf, o.events, timed);
    }
  }

  lemma {:induction false} FramesOfStep(f: seq<byte>, more: seq<byte>)
    requires IsFrame(f)
    ensures FramesOf(f + more) == [f] + FramesOf(more)
  {
    NextFrameExtends(f, more);
    assert (f + more)[..|f|] == f && (f + more)[|f|..] == more;
  }

  /** The framing of a stream that starts with whole frames is those frames and then the rest's. */
  lemma {:induction false} FramesOfFlatten(frames: seq<seq<byte>>, tail: seq<byte>)
    requires forall i :: 0 <= i < |frames| ==> IsFrame(frames[i])
    ensures FramesOf(Flatten(frames) + tail) == frames + FramesOf(tail)
    decreases |frames|
  {
    if frames == [] {
      assert Flatten(frames) + tail == tail;
    } else {
      Associate(frames[0], Flatten(frames[1..]), tail);
      FramesOfStep(frames[0], Flatten(frames[1..]) + tail);
      FramesOfFlatten(frames[1..], tail);
      Associate([frames[0]], frames[1..], FramesOf(tail));
      assert frames == [frames[0]] + frames[1..];
    }
  }

  /**
   * Frames sent are frames received, in order and no others: for every list of frames, every
   * split of their concatenation into chunks, and any timeouts and errors in between.
   */
  lemma {:induction false} FramesSurviveChunking(frames: seq<seq<byte>>, events: seq<Event>, timed: bool)
    requires forall i :: 0 <= i < |frames| ==> IsFrame(frames[i])
    requires DataOf(events) == Flatten(frames)
    ensures AllFrames([], events, timed) == frames
  {
    ChunkingIrrelevant([], events, timed);
    FramesOfFlatten(frames, []);
    assert [] + DataOf(events) == Flatten(frames) + [] == Flatten(frames);
    assert FramesOf([]) == [];
  }

  // ---------------------------------------------------------------- the account of a run of calls

  lemma {:induction false} DataOfConcat(a: seq<Event>, b: seq<Event>)
    ensures DataOf(a + b) == DataOf(a) + DataOf(b)
    decreases |a|
  {
    if a == [] {
      assert a + b == b && [] + DataOf(b) == DataOf(b);
    } else {
      assert (a + b)[1..] == a[1..] + b;
      DataOfConcat(a[1..], b);
      Associate(if a[0].Read? then a[0].chunk else [], DataOf(a[1..]), DataOf(b));
    }
  }

  /** What a call hands out and what it leaves in the buffer is what was there and what it read. */
  lemma {:induction false} BytesAccounted(inbuf: seq<byte>, events: seq<Event>, timed: bool)
    ensures var o := FrameRead(inbuf, events, timed);
            Delivered(o) + o.inbuf == inbuf + DataOf(events[..|events| - |o.events|])
  {
    var o := FrameRead(inbuf, events, timed);
    var used := events[..|events| - |o.events|];
    Conservation(inbuf, events, timed);
    EventsConsumedInOrder(inbuf, events, timed);
    assert events == used + o.events;
    DataOfConcat(used, o.events);
    Associate(Delivered(o), o.inbuf, DataOf(o.events));
    Associate(inbuf, DataOf(used), DataOf(o.events));
    CancelBack(Delivered(o) + o.inbuf, inbuf + DataOf(used), DataOf(o.events));
  }

  /** The frames some calls returned, and the buffer and the events they left. */
  datatype Account = Account(frames: seq<seq<byte>>, inbuf: seq<byte>, events: seq<Event>)

  /** A run of calls on an open port, each with or without a deadline, whatever their outcomes. */
  function AfterCalls(events: seq<Event>, calls: seq<bool>): (a: Account)
    ensures |a.events| <= |events|
  {
    if calls == [] then Account([], [], events)
    else
      var before := AfterCalls(events, calls[..|calls| - 1]);
      var o := FrameRead(before.inbuf, before.events, calls[|calls| - 1]);
      Account(if o.frame.Ok? then before.frames + [o.frame.value] else before.frames, o.inbuf, o.events)
  }

  lemma {:induction false} FlattenSnoc(frames: seq<seq<byte>>, f: seq<byte>)
    ensures Flatten(frames + [f]) == Flatten(frames) + f
  {
    if frames == [] {
      assert [] + [f] == [f];
      assert Flatten([f]) == f + Flatten([]) == f;
      assert [] + f == f;
    } else {
      assert (frames + [f])[1..] == frames[1..] + [f];
      FlattenSnoc(frames[1..], f);
      Associate(frames[0], Flatten(frames[1..]), f);
    }
  }

  lemma {:induction false} DeliveredJoins(frames: seq<seq<byte>>, o: Reading)
    ensures Flatten(if o.frame.Ok? then frames + [o.frame.value] else frames) == Flatten(frames) + Delivered(o)
  {
    if o.frame.Ok? {
      FlattenSnoc(frames, o.frame.value);
    } else {
      assert Flatten(frames) + [] == Flatten(frames);
    }
  }

  /** The bytes read are the frames returned and then the buffer, which is below the size limit. */
  ghost predicate Accounted(events: seq<Event>, a: Account) {
    && |a.events| <= |events| && a.events == events[|events| - |a.events|..]
    && DataOf(events[..|events| - |a.events|]) == Flatten(a.frames) + a.inbuf
    && Settled(a.inbuf) && |a.inbuf| < MAX_MESSAGE_LEN
    && forall i :: 0 <= i < |a.frames| ==> IsFrame(a.frames[i])
  }

  /**
   * At every point of every run of calls the bytes read so far are the frames returned so far and
   * then the buffer, and the buffer stays below the size limit.
   */
  lemma {:induction false} RunAccounted(events: seq<Event>, calls: seq<bool>)
    ensures Accounted(events, AfterCalls(events, calls))
    decreases |calls|
  {
    hide Accounted, FrameRead;
    if calls == [] {
      NothingAccounted(events);
    } else {
      RunAccounted(events, calls[..|calls| - 1]);
      AccountedStep(events, AfterCalls(events, calls[..|calls| - 1]), calls[|calls| - 1]);
    }
  }

  lemma {:induction false} NothingAccounted(events: seq<Event>)
    ensures Accounted(events, Account([], [], events))
  {
    assert events[..0] == [] && Flatten([]) + [] == [];
  }

  lemma {:induction false} AccountedStep(events: seq<Event>, before: Account, timed: bool)
    requires Accounted(events, before)
    ensures var o := FrameRead(before.inbuf, before.events, timed);
            Accounted(events, Account(if o.frame.Ok? then before.frames + [o.frame.value] else before.frames, o.inbuf, o.events))
  {
    hide FrameRead, NextFrame, DataOf, Flatten, Settled, IsFrame;
    var o := FrameRead(before.inbuf, before.events, timed);
    BufferStaysBounded(before.inbuf, before.events, timed);
    EventsConsumedInOrder(before.inbuf, before.events, timed);
    BytesAccounted(before.inbuf, before.events, timed);
    DeliveredJoins(before.frames, o);
    var earlier := events[..|events| - |before.events|];
    var used := before.events[..|before.events| - |o.events|];
    assert events[..|events| - |o.events|] == earlier + used;
    DataOfConcat(earlier, used);
    Associate(Flatten(before.frames), before.inbuf, DataOf(used));
    Associate(Flatten(before.frames), Delivered(o), o.inbuf);
    ReturnedIsFrame(before.inbuf, before.events, timed);
  }

  lemma {:induction false} ReturnedIsFrame(inbuf: seq<byte>, events: seq<Event>, timed: bool)
    ensures FrameRead(inbuf, events, timed).frame.Ok? ==> IsFrame(FrameRead(inbuf, events, timed).frame.value)
  {
    FirstFrame(inbuf, events, timed);
    var o := FrameRead(inbuf, events, timed);
    if o.frame.Ok? {
      var stream := inbuf + DataOf(events);
      assert o.frame.value[..4] == stream[..4];
    }
  }

  // ---------------------------------------------------------------- bounds and failure

  /** What holds of the buffer between calls. */
  predicate Settled(inbuf: seq<byte>) {
    match NextFrame(inbuf)
    case Partial => true
    case Whole(_) => |inbuf| < READ_BUF_LEN
    case Invalid(_) => |inbuf| < READ_BUF_LEN + 4
  }

  lemma {:induction false} SettledIsBounded(inbuf: seq<byte>)
    requires Settled(inbuf)
    ensures |inbuf| < MAX_MESSAGE_LEN
  {
  }

  /** What holds of the buffer inside a call: at most one read beyond an incomplete frame. */
  ghost predicate Filling(inbuf: seq<byte>) {
    Settled(inbuf) || exists n: nat :: FilledFrom(inbuf, n)
  }

  ghost predicate FilledFrom(inbuf: seq<byte>, n: nat) {
    n <= |inbuf| <= n + READ_BUF_LEN && NextFrame(inbuf[..n]).Partial?
  }

  lemma {:induction false} FillingIsBounded(inbuf: seq<byte>)
    requires Filling(inbuf)
    ensures |inbuf| < MAX_MESSAGE_LEN + READ_BUF_LEN
    ensures NextFrame(inbuf).Whole? ==> |inbuf| - NextFrame(inbuf).total < READ_BUF_LEN
    ensures !NextFrame(inbuf).Whole? ==> Settled(inbuf)
  {
    if !Settled(inbuf) {
      var n: nat :| FilledFrom(inbuf, n);
      if n >= 4 {
        assert inbuf[..n][..4] == inbuf[..4];
      }
    }
  }

  lemma {:induction false} FillingGrows(inbuf: seq<byte>, chunk: Chunk)
    requires NextFrame(inbuf).Partial?
    ensures Filling(inbuf + chunk)
  {
    assert (inbuf + chunk)[..|inbuf|] == inbuf;
    assert FilledFrom(inbuf + chunk, |inbuf|);
  }

  lemma {:induction false} SmallIsSettled(inbuf: seq<byte>)
    requires |inbuf| < READ_BUF_LEN
    ensures Settled(inbuf)
  {
  }

  lemma {:induction false} BufferWithinCall(inbuf: seq<byte>, events: seq<Event>, timed: bool)
    requires Filling(inbuf)
    ensures var o := FrameRead(inbuf, events, timed);
            Settled(o.inbuf) && (o.frame.Ok? ==> |o.inbuf| < READ_BUF_LEN)
    decreases |events|
  {
    FillingIsBounded(inbuf);
    if NextFrame(inbuf).Whole? {
      SmallIsSettled(inbuf[NextFrame(inbuf).total..]);
    } else if NextFrame(inbuf).Partial? && events != [] {
      if events[0].Quiet? && !timed {
        BufferWithinCall(inbuf, events[1..], timed);
      } else if events[0].Read? && events[0].chunk != [] {
        FillingGrows(inbuf, events[0].chunk);
        BufferWithinCall(inbuf + events[0].chunk, events[1..], timed);
      }
    }
  }

  /** Every call, whatever its outcome, keeps the buffer settled; a success leaves less than one read. */
  lemma {:induction false} BufferStaysBounded(inbuf: seq<byte>, events: seq<Event>, timed: bool)
    requires Settled(inbuf)
    ensures var o := FrameRead(inbuf, events, timed);
            && Settled(o.inbuf) && |o.inbuf| < MAX_MESSAGE_LEN
            && (o.frame.Ok? ==> |o.inbuf| < READ_BUF_LEN)
  {
    BufferWithinCall(inbuf, events, timed);
    SettledIsBounded(FrameRead(inbuf, events, timed).inbuf);
  }

  /** Once a length is rejected every later call fails the same way, without reading. */
  lemma {:induction false} RejectionIsFinal(inbuf: seq<byte>, events: seq<Event>, timed: bool, later: seq<Event>, timedLater: bool)
    requires FrameRead(inbuf, events, timed).frame.Err?
    requires var e := FrameRead(inbuf, events, timed).frame.error; e.Protocol? && e.violation.FrameLength?
    ensures var o := FrameRead(inbuf, events, timed);
            FrameRead(o.inbuf, later, timedLater) == Reading(o.frame, o.inbuf, later)
    decreases |events|
  {
    if NextFrame(inbuf).Partial? {
      match events[0]
      case Quiet => RejectionIsFinal(inbuf, events[1..], timed, later, timedLater);
      case Read(chunk) => RejectionIsFinal(inbuf + chunk, events[1..], timed, later, timedLater);
    }
  }
}
