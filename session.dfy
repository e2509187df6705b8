/** What the receive loop of a chat peer does with the bytes its socket
    delivers, as pure functions: one iteration (Step) and the whole loop
    (Run). The loop method of ChatBase is proved to behave as Run says, and
    the properties of the protocol are proved here about Run. */
module Session {
  import opened MessageFormat
  import opened Console
  import opened Stream

  /** The runtime_error a failed send throws. */
  datatype SendError = MessageSendFailed | AckSendFailed

  /** How a call ended: by returning, or by throwing. */
  datatype Outcome = Normal | Threw(reason: SendError)

  /** What a stretch of the receive loop did: the buffers it wrote, the
      events it printed, how many input bytes it consumed, how many sends it
      made and how it ended. */
  datatype Trace = Trace(writes: seq<seq<Byte>>, events: seq<Event>, consumed: nat, sends: nat, outcome: Outcome)

  const Idle: Trace := Trace([], [], 0, 0, Normal)

  /** `first` followed by `next`; the outcome is the last one. */
  function Then(first: Trace, next: Trace): Trace {
    Trace(first.writes + next.writes, first.events + next.events,
          first.consumed + next.consumed, first.sends + next.sends, next.outcome)
  }

  /** What the loop does with a frame whose header and payload both
      arrived: print a DATA frame and acknowledge it, print an ACK frame,
      ignore any other tag. An acknowledgement the socket refuses throws. */
  function Dispatch(header: MessageHeader, text: seq<Byte>, accepted: bool): (t: Trace)
    ensures t.consumed == HEADER_SIZE + header.dataSize
  {
    var consumed := HEADER_SIZE + header.dataSize;
    if header.kind == DATA then
      if accepted then
        Trace([AckFrame(header.messageId)], [Received(header.messageId, text)], consumed, 1, Normal)
      else
        Trace([], [Received(header.messageId, text)], consumed, 1, Threw(AckSendFailed))
    else if header.kind == ACK then
      Trace([], [AckReceived(header.messageId)], consumed, 0, Normal)
    else
      Trace([], [], consumed, 0, Normal)
  }

  /** One iteration of the loop, while running and with input left: read a
      header, skip it if short; read the payload it announces, skip the
      frame if short; otherwise dispatch on the frame. `accepted` is
      whether the next send succeeds. */
  function Step(rest: seq<Byte>, accepted: bool): (t: Trace)
    requires 0 < |rest|
    ensures 0 < t.consumed <= |rest|
    ensures t.sends <= 1
  {
    if |rest| < HEADER_SIZE then
      Trace([], [IncompleteHeader], |rest|, 0, Normal)
    else
      var header := DecodeHeader(rest[..HEADER_SIZE]);
      var payload := rest[HEADER_SIZE..];
      if 0 < header.dataSize && |payload| < header.dataSize then
        Trace([], [IncompleteData], |rest|, 0, Normal)
      else
        Dispatch(header, if 0 < header.dataSize then payload[..header.dataSize] else [], accepted)
  }

  /** The whole loop on the unread input, with `results` the outcomes of
      the sends still to come: it stops when not running, when a header
      read returns no bytes (the end of the stream), or when an
      acknowledgement cannot be sent. */
  function Run(rest: seq<Byte>, running: bool, results: seq<bool>): (t: Trace)
    ensures t.consumed <= |rest|
    decreases |rest|
  {
    if !running || |rest| == 0 then
      Idle
    else
      var s := Step(rest, NextAccepted(results));
      if s.outcome.Threw? then s
      else Then(s, Run(rest[s.consumed..], running, AfterSends(results, s.sends)))
  }

  /** A running loop with input left does one iteration and, unless that
      iteration threw, goes on with the input and the sends after it. */
  lemma Advance(rest: seq<Byte>, results: seq<bool>)
    requires 0 < |rest|
    ensures var step := Step(rest, NextAccepted(results));
            Run(rest, true, results) ==
            if step.outcome.Threw? then step
            else Then(step, Run(rest[step.consumed..], true, AfterSends(results, step.sends)))
  {
  }

  lemma ThenAssoc(a: Trace, b: Trace, c: Trace)
    requires b.outcome == Normal
    ensures Then(a, Then(b, c)) == Then(Then(a, b), c)
  {
    assert a.writes + (b.writes + c.writes) == (a.writes + b.writes) + c.writes;
    assert a.events + (b.events + c.events) == (a.events + b.events) + c.events;
  }

  /** Dropping a sends and then b sends drops a + b sends. */
  lemma AfterSendsAdd(results: seq<bool>, a: nat, b: nat)
    ensures AfterSends(AfterSends(results, a), b) == AfterSends(results, a + b)
  {
    if a + b <= |results| {
      assert results[a..][b..] == results[a + b..];
    }
  }

  // ---------------------------------------------------------------------
  // One acknowledgement per DATA frame

  /** The acknowledgements due for the DATA frames among `events`, in order. */
  function AcksFor(events: seq<Event>): (acks: seq<seq<Byte>>)
    ensures |acks| <= |events|
  {
    if events == [] then []
    else (if events[0].Received? then [AckFrame(events[0].id)] else []) + AcksFor(events[1..])
  }

  lemma {:induction false} AcksForAppend(a: seq<Event>, b: seq<Event>)
    ensures AcksFor(a + b) == AcksFor(a) + AcksFor(b)
  {
    if a == [] {
      assert a + b == b;
    } else {
      assert (a + b)[0] == a[0];
      assert (a + b)[1..] == a[1..] + b;
      AcksForAppend(a[1..], b);
    }
  }

  lemma AcksForOne(e: Event)
    ensures AcksFor([e]) == if e.Received? then [AckFrame(e.id)] else []
  {
    assert [e][1..] == [];
  }

  /** A stretch of the loop made one send for every DATA frame it printed
      and wrote exactly the acknowledgements due for what it printed, in
      order, except that a stretch that threw lacks the acknowledgement of
      its last DATA frame, whose send was refused. */
  predicate AcksAsDue(t: Trace) {
    && t.sends == |AcksFor(t.events)|
    && (t.outcome == Normal ==> t.writes == AcksFor(t.events))
    && (t.outcome.Threw? ==> 0 < t.sends && t.writes == AcksFor(t.events)[..t.sends - 1])
  }

  /** One iteration writes the acknowledgement due for what it printed,
      unless its send was refused. */
  lemma StepAcks(rest: seq<Byte>, accepted: bool)
    requires 0 < |rest|
    ensures AcksAsDue(Step(rest, accepted))
  {
    var s := Step(rest, accepted);
    if s.events != [] {
      assert |s.events| == 1;
      AcksForOne(s.events[0]);
      assert s.events == [s.events[0]];
    }
  }

  /** A stretch that ended normally followed by another keeps AcksAsDue. */
  lemma AcksThen(first: Trace, next: Trace)
    requires first.outcome == Normal && AcksAsDue(first) && AcksAsDue(next)
    ensures AcksAsDue(Then(first, next))
  {
    AcksForAppend(first.events, next.events);
    if next.outcome.Threw? {
      assert AcksFor(first.events + next.events)[..first.sends + next.sends - 1]
          == AcksFor(first.events) + AcksFor(next.events)[..next.sends - 1];
    }
  }

  /** Whatever the input and whichever sends fail, the loop makes one send
      for every DATA frame it prints and writes exactly one ACK frame for
      every DATA frame it prints, echoing its id, in arrival order, and
      nothing else; when it throws, only the acknowledgement of the last
      DATA frame is missing. */
  lemma {:induction false} OneAckPerDataFrame(rest: seq<Byte>, running: bool, results: seq<bool>)
    ensures AcksAsDue(Run(rest, running, results))
    decreases |rest|
  {
    if running && |rest| > 0 {
      var s := Step(rest, NextAccepted(results));
      StepAcks(rest, NextAccepted(results));
      if !s.outcome.Threw? {
        var next := Run(rest[s.consumed..], running, AfterSends(results, s.sends));
        OneAckPerDataFrame(rest[s.consumed..], running, AfterSends(results, s.sends));
        AcksThen(s, next);
      }
    }
  }

  /** A loop that is not running reads and writes nothing. */
  lemma NotRunningDoesNothing(rest: seq<Byte>, results: seq<bool>)
    ensures Run(rest, false, results) == Idle
  {
  }

  /** The loop ends normally only at the end of the stream, having consumed
      all of it; it throws only when an acknowledgement cannot be sent. */
  lemma {:induction false} RunEndsAtStreamEnd(rest: seq<Byte>, results: seq<bool>)
    ensures var t := Run(rest, true, results);
            && (t.outcome == Normal ==> t.consumed == |rest|)
            && (t.outcome.Threw? ==> t.outcome.reason == AckSendFailed)
    decreases |rest|
  {
    if |rest| > 0 {
      var s := Step(rest, NextAccepted(results));
      if !s.outcome.Threw? {
        RunEndsAtStreamEnd(rest[s.consumed..], AfterSends(results, s.sends));
      }
    }
  }

  /** One iteration makes at most one send, and throws exactly when it makes
      one that is refused. */
  lemma StepSends(rest: seq<Byte>, accepted: bool)
    requires 0 < |rest|
    ensures var s := Step(rest, accepted);
            s.outcome.Threw? <==> s.sends == 1 && !accepted
  {
  }

  /** None of the first n sends is refused. */
  predicate AcceptsFirst(results: seq<bool>, n: nat) {
    forall k | 0 <= k < n && k < |results| :: results[k]
  }

  /** Every send a stretch of the loop makes is accepted, except that a
      stretch that throws stops at the first refused send. */
  predicate SendsUntilRefusal(results: seq<bool>, t: Trace) {
    && (t.outcome == Normal ==> AcceptsFirst(results, t.sends))
    && (t.outcome.Threw? ==>
          && 0 < t.sends <= |results|
          && AcceptsFirst(results, t.sends - 1)
          && !results[t.sends - 1])
  }

  /** An iteration whose sends were all accepted, followed by a stretch
      that keeps SendsUntilRefusal on the sends after it. */
  lemma SendsThen(results: seq<bool>, s: Trace, next: Trace)
    requires s.outcome == Normal && AcceptsFirst(results, s.sends)
    requires SendsUntilRefusal(AfterSends(results, s.sends), next)
    ensures SendsUntilRefusal(results, Then(s, next))
  {
    var later := AfterSends(results, s.sends);
    var n := s.sends + next.sends;
    var m := if next.outcome.Threw? then n - 1 else n;
    forall k | 0 <= k < m && k < |results|
      ensures results[k]
    {
      if s.sends <= k {
        assert later[k - s.sends] == results[k];
      }
    }
    if next.outcome.Threw? {
      assert later[next.sends - 1] == results[n - 1];
    }
  }

  /** Every send the loop makes is accepted, except that a loop that throws
      stops at the first send the socket refuses. */
  lemma {:induction false} ThrowsAtFirstRefusal(rest: seq<Byte>, results: seq<bool>)
    ensures SendsUntilRefusal(results, Run(rest, true, results))
    decreases |rest|
  {
    if |rest| > 0 {
      var accepted := NextAccepted(results);
      var s := Step(rest, accepted);
      StepSends(rest, accepted);
      if !s.outcome.Threw? {
        var next := Run(rest[s.consumed..], true, AfterSends(results, s.sends));
        ThrowsAtFirstRefusal(rest[s.consumed..], AfterSends(results, s.sends));
        SendsThen(results, s, next);
      }
    }
  }

  // ---------------------------------------------------------------------
  // A stream made of serialized frames

  predicate AllWellFormed(frames: seq<Message>) {
    forall i | 0 <= i < |frames| :: WellFormed(frames[i])
  }

  /** The socket accepts every send still to come. */
  predicate AllAccepted(results: seq<bool>) {
    false !in results
  }

  lemma AllAcceptedAfter(results: seq<bool>, n: nat)
    requires AllAccepted(results)
    ensures AllAccepted(AfterSends(results, n)) && NextAccepted(results)
  {
    if results != [] {
      assert results[0] in results;
    }
  }

  /** On a socket that accepts every send, the loop does the same whatever
      number of results is listed. */
  lemma {:induction false} RunAllAccepted(rest: seq<Byte>, results: seq<bool>, others: seq<bool>)
    requires AllAccepted(results) && AllAccepted(others)
    ensures Run(rest, true, results) == Run(rest, true, others)
    decreases |rest|
  {
    if |rest| > 0 {
      AllAcceptedAfter(results, 0);
      AllAcceptedAfter(others, 0);
      var s := Step(rest, true);
      if !s.outcome.Threw? {
        AllAcceptedAfter(results, s.sends);
        AllAcceptedAfter(others, s.sends);
        RunAllAccepted(rest[s.consumed..], AfterSends(results, s.sends), AfterSends(others, s.sends));
      }
    }
  }

  /** The bytes of the frames sent one after another. */
  function Concat(frames: seq<Message>): (bytes: seq<Byte>)
    requires AllWellFormed(frames)
  {
    if frames == [] then [] else Serialize(frames[0]) + Concat(frames[1..])
  }

  /** What the receiver prints for one frame. */
  function FrameEvents(m: Message): seq<Event> {
    if m.header.kind == DATA then [Received(m.header.messageId, m.data)]
    else if m.header.kind == ACK then [AckReceived(m.header.messageId)]
    else []
  }

  function EventsFor(frames: seq<Message>): seq<Event> {
    if frames == [] then [] else FrameEvents(frames[0]) + EventsFor(frames[1..])
  }

  /** One iteration on a stream that starts with a whole frame consumes
      exactly that frame, prints it and, when the send succeeds,
      acknowledges it if it is DATA. */
  lemma StepOnFrame(m: Message, tail: seq<Byte>, accepted: bool)
    requires WellFormed(m) && accepted
    ensures var acks := AcksFor(FrameEvents(m));
            Step(Serialize(m) + tail, accepted) == Trace(acks, FrameEvents(m), |Serialize(m)|, |acks|, Normal)
  {
    var frame := Serialize(m);
    var rest := frame + tail;
    assert rest[..HEADER_SIZE] == frame[..HEADER_SIZE];
    DecodeEncodeHeader(m.header);
    var payload := rest[HEADER_SIZE..];
    assert payload == frame[HEADER_SIZE..] + tail;
    if 0 < m.header.dataSize {
      assert payload[..m.header.dataSize] == m.data;
    }
  }

  /** On a stream that starts with a whole frame, the loop handles that
      frame and goes on with what follows it. */
  lemma RunAfterFrame(m: Message, more: seq<Byte>, results: seq<bool>)
    requires WellFormed(m) && AllAccepted(results)
    ensures var acks := AcksFor(FrameEvents(m));
            Run(Serialize(m) + more, true, results) ==
            Then(Trace(acks, FrameEvents(m), |Serialize(m)|, |acks|, Normal), Run(more, true, results))
  {
    var rest := Serialize(m) + more;
    var acks := AcksFor(FrameEvents(m));
    AllAcceptedAfter(results, |acks|);
    StepOnFrame(m, more, NextAccepted(results));
    assert rest[|Serialize(m)|..] == more;
    Advance(rest, results);
    RunAllAccepted(more, AfterSends(results, |acks|), results);
  }

  /** What the loop does for a sequence of whole frames when every send
      succeeds. */
  function FramesTrace(frames: seq<Message>): Trace
    requires AllWellFormed(frames)
  {
    var acks := AcksFor(EventsFor(frames));
    Trace(acks, EventsFor(frames), |Concat(frames)|, |acks|, Normal)
  }

  /** The trace of a non-empty sequence of frames is that of its first
      frame followed by that of the others. */
  lemma FramesTraceCons(frames: seq<Message>)
    requires AllWellFormed(frames) && frames != []
    ensures AllWellFormed(frames[1..])
    ensures var acks := AcksFor(FrameEvents(frames[0]));
            FramesTrace(frames) ==
            Then(Trace(acks, FrameEvents(frames[0]), |Serialize(frames[0])|, |acks|, Normal),
                 FramesTrace(frames[1..]))
  {
    assert AllWellFormed(frames[1..]) by {
      forall i | 0 <= i < |frames[1..]| ensures WellFormed(frames[1..][i]) {
        assert frames[1..][i] == frames[i + 1];
      }
    }
    AcksForAppend(FrameEvents(frames[0]), EventsFor(frames[1..]));
  }

  /** On a stream of whole frames followed by any tail, the loop prints and
      acknowledges the frames in order, then goes on with the tail. */
  lemma {:induction false} RunOnFrames(frames: seq<Message>, tail: seq<Byte>, results: seq<bool>)
    requires AllWellFormed(frames) && AllAccepted(results)
    ensures Run(Concat(frames) + tail, true, results) == Then(FramesTrace(frames), Run(tail, true, results))
    decreases |frames|
  {
    if frames == [] {
      assert Concat(frames) + tail == tail;
    } else {
      var m := frames[0];
      var more := Concat(frames[1..]) + tail;
      assert Concat(frames) + tail == Serialize(m) + more;
      var acks := AcksFor(FrameEvents(m));
      FramesTraceCons(frames);
      RunAfterFrame(m, more, results);
      RunOnFrames(frames[1..], tail, results);
      ThenAssoc(Trace(acks, FrameEvents(m), |Serialize(m)|, |acks|, Normal),
                FramesTrace(frames[1..]), Run(tail, true, results));
    }
  }

  /** If the input is exactly a sequence of serialized frames, the loop
      keeps running and the socket accepts its sends, it acknowledges every
      DATA frame once, with its id, in arrival order, prints every DATA and
      ACK frame, writes nothing for ACK or unknown tags, and ends normally
      having consumed the stream. */
  lemma RunOnStream(frames: seq<Message>, results: seq<bool>)
    requires AllWellFormed(frames) && AllAccepted(results)
    ensures Run(Concat(frames), true, results) == FramesTrace(frames)
  {
    RunOnFrames(frames, [], results);
    assert Concat(frames) + [] == Concat(frames);
  }

  /** A frame cut short by the end of the stream produces no send: only a
      notice, after which the next header read finds the stream exhausted. */
  lemma TruncatedFrame(m: Message, k: nat, results: seq<bool>)
    requires WellFormed(m)
    requires 0 < k < |Serialize(m)|
    ensures Run(Serialize(m)[..k], true, results) ==
            Trace([], [if k < HEADER_SIZE then IncompleteHeader else IncompleteData], k, 0, Normal)
  {
    var rest := Serialize(m)[..k];
    if HEADER_SIZE <= k {
      assert rest[..HEADER_SIZE] == Serialize(m)[..HEADER_SIZE];
      DecodeEncodeHeader(m.header);
    }
    assert rest[k..] == [];
  }

  /** Whole frames followed by a cut-short frame: the whole frames are
      handled as usual and the last one gets no acknowledgement. */
  lemma TruncatedStream(frames: seq<Message>, m: Message, k: nat, results: seq<bool>)
    requires AllWellFormed(frames) && WellFormed(m) && AllAccepted(results)
    requires 0 < k < |Serialize(m)|
    ensures var done := FramesTrace(frames);
            Run(Concat(frames) + Serialize(m)[..k], true, results) ==
            done.(events := done.events + [if k < HEADER_SIZE then IncompleteHeader else IncompleteData],
                  consumed := done.consumed + k)
  {
    var done := FramesTrace(frames);
    RunOnFrames(frames, Serialize(m)[..k], results);
    TruncatedFrame(m, k, results);
    assert done.writes + [] == done.writes;
  }
}
