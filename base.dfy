/** The connection logic shared by the chat server and client: the message
    id counter, sending a DATA frame, sending an ACK frame, and the receive
    loop that prints incoming frames and acknowledges DATA frames. */
module Base {
  import opened MessageFormat
  import opened Console
  import opened Stream
  import opened Session

  /** The counter after a post-increment of a uint32: wraps at 2^32. */
  function NextId(id: Uint32): (next: Uint32)
    ensures id < UINT32_MODULUS - 1 ==> next == id + 1
    ensures id == UINT32_MODULUS - 1 ==> next == 0
  {
    (id + 1) % UINT32_MODULUS
  }

  /** The ids that n successive calls of GetNextMessageId hand out. */
  function IdsFrom(start: Uint32, n: nat): (ids: seq<Uint32>)
    ensures |ids| == n
    ensures 0 < n ==> ids[0] == start
    ensures forall i | 0 < i < n :: ids[i] == NextId(ids[i - 1])
    decreases n
  {
    if n == 0 then [] else [start] + IdsFrom(NextId(start), n - 1)
  }

  /** The i-th id handed out is the start plus i, modulo 2^32. */
  lemma {:induction false} IdsFromAt(start: Uint32, n: nat, i: nat)
    requires i < n
    ensures IdsFrom(start, n)[i] == (start + i) % UINT32_MODULUS
    decreases i
  {
    if i > 0 {
      IdsFromAt(NextId(start), n - 1, i - 1);
      assert (NextId(start) + (i - 1)) % UINT32_MODULUS == (start + i) % UINT32_MODULUS;
    }
  }

  /** A fresh peer hands out 0, 1, 2, ... as long as the counter has not
      wrapped. */
  lemma IdsFromZero(n: nat, i: nat)
    requires i < n <= UINT32_MODULUS
    ensures IdsFrom(0, n)[i] == i
  {
    IdsFromAt(0, n, i);
  }

  /** Fewer than 2^32 + 1 successive ids are pairwise different: no id is
      handed out twice before the counter wraps. */
  lemma IdsDistinct(start: Uint32, n: nat, i: nat, j: nat)
    requires i < j < n <= UINT32_MODULUS
    ensures IdsFrom(start, n)[i] != IdsFrom(start, n)[j]
  {
    IdsFromAt(start, n, i);
    IdsFromAt(start, n, j);
    if start + j < UINT32_MODULUS {
      assert (start + i) % UINT32_MODULUS == start + i;
      assert (start + j) % UINT32_MODULUS == start + j;
    } else if start + i < UINT32_MODULUS {
      assert (start + i) % UINT32_MODULUS == start + i;
      assert (start + j) % UINT32_MODULUS == start + j - UINT32_MODULUS;
    } else {
      assert (start + i) % UINT32_MODULUS == start + i - UINT32_MODULUS;
      assert (start + j) % UINT32_MODULUS == start + j - UINT32_MODULUS;
    }
  }

  /** Appending one iteration's writes and events, and then those of the
      rest of the loop, to what was there before. */
  lemma AppendThen(written: seq<seq<Byte>>, console: seq<Event>, step: Trace, next: Trace)
    ensures written + Then(step, next).writes == (written + step.writes) + next.writes
    ensures console + Then(step, next).events == (console + step.events) + next.events
  {
  }

  class ChatBase {
    /** The id the next DATA frame gets. */
    var nextMessageId: Uint32
    /** Cleared on shutdown; the receive loop runs while it is set. */
    var running: bool
    /** What the peer has printed, as events. */
    var console: seq<Event>

    /** The state the peer code starts from: counter 0, running. */
    constructor ()
      ensures nextMessageId == 0 && running && console == []
    {
      nextMessageId := 0;
      running := true;
      console := [];
    }

    /** Returns the counter and post-increments it. */
    method GetNextMessageId() returns (id: Uint32)
      modifies this`nextMessageId
      ensures id == old(nextMessageId) && nextMessageId == NextId(id)
    {
      id := nextMessageId;
      nextMessageId := NextId(nextMessageId);
    }

    /** Writes the 9-byte ACK frame echoing `id`; a refused write throws. */
    method SendAck(sock: Socket, id: Uint32) returns (outcome: Outcome)
      modifies sock`sendResults, sock`written
      ensures var accepted := NextAccepted(old(sock.sendResults));
              && outcome == (if accepted then Normal else Threw(AckSendFailed))
              && sock.written == old(sock.written) + (if accepted then [AckFrame(id)] else [])
      ensures sock.sendResults == AfterSends(old(sock.sendResults), 1)
    {
      var ackMessage := NewMessage(ACK, id, []);
      var serialized := Serialize(ackMessage);
      var ok := sock.Send(serialized);
      outcome := if ok then Normal else Threw(AckSendFailed);
    }

    /** A text longer than MAX_DATA_SIZE is refused with a notice, without
        taking an id or writing; otherwise the text goes out as one DATA
        frame with the next id. A refused write throws, after the id has
        been taken. */
    method SendMessage(text: seq<Byte>, sock: Socket) returns (outcome: Outcome)
      modifies this`nextMessageId, this`console, sock`sendResults, sock`written
      ensures MAX_DATA_SIZE < |text| ==>
                && outcome == Normal
                && nextMessageId == old(nextMessageId)
                && sock.written == old(sock.written)
                && sock.sendResults == old(sock.sendResults)
                && console == old(console) + [MessageTooLong]
      ensures |text| <= MAX_DATA_SIZE ==>
                var accepted := NextAccepted(old(sock.sendResults));
                && outcome == (if accepted then Normal else Threw(MessageSendFailed))
                && nextMessageId == NextId(old(nextMessageId))
                && sock.written == old(sock.written) +
                     (if accepted then [Serialize(NewMessage(DATA, old(nextMessageId), text))] else [])
                && sock.sendResults == AfterSends(old(sock.sendResults), 1)
                && console == old(console)
    {
      if |text| > MAX_DATA_SIZE {
        console := console + [MessageTooLong];
        return Normal;
      }
      var id := GetNextMessageId();
      var msg := NewMessage(DATA, id, text);
      var serialized := Serialize(msg);
      var ok := sock.Send(serialized);
      outcome := if ok then Normal else Threw(MessageSendFailed);
    }

    /** One pass of the body of the receive loop: a header read that
        returns no bytes, or a cleared running flag, stops the loop (stop);
        otherwise one frame (or the short remains of one) is read, printed
        and acknowledged as Step describes. */
    method HandleOneFrame(sock: Socket) returns (stop: bool, outcome: Outcome)
      requires running && sock.Valid()
      modifies this`console, sock`cursor, sock`sendResults, sock`written
      ensures sock.Valid()
      ensures stop <==> |old(sock.Remaining())| == 0
      ensures stop ==> outcome == Normal && unchanged(sock, this)
      ensures !stop ==>
                var t := Step(old(sock.Remaining()), NextAccepted(old(sock.sendResults)));
                && sock.written == old(sock.written) + t.writes
                && sock.sendResults == AfterSends(old(sock.sendResults), t.sends)
                && console == old(console) + t.events
                && sock.cursor == old(sock.cursor) + t.consumed
                && outcome == t.outcome
    {
      ghost var rest := sock.Remaining();
      ghost var accepted := NextAccepted(sock.sendResults);
      outcome := Normal;
      var buffer := sock.Recv(HEADER_SIZE);
      if |buffer| == 0 || !running {
        return true, Normal;
      }
      stop := false;
      if |buffer| != HEADER_SIZE {
        console := console + [IncompleteHeader];
        return;
      }

      var parsed := DeserializeHeader(DefaultMessage(), buffer);
      var msg := parsed.value;
      assert buffer == rest[..HEADER_SIZE];
      DecodeEncodeHeader(msg.header);
      assert DecodeHeader(rest[..HEADER_SIZE]) == msg.header;

      if msg.header.dataSize > 0 {
        ghost var afterHeader := sock.Remaining();
        var payload := sock.Recv(msg.header.dataSize);
        if |payload| < msg.header.dataSize {
          console := console + [IncompleteData];
          return;
        }
        assert afterHeader == rest[HEADER_SIZE..];
        assert payload == rest[HEADER_SIZE..][..msg.header.dataSize];
        var filled := DeserializeData(msg, payload);
        msg := filled.value;
      } else {
        assert msg.data == [];
      }
      assert HEADER_SIZE <= |rest|;
      assert !(0 < msg.header.dataSize && |rest[HEADER_SIZE..]| < msg.header.dataSize);
      assert msg.data == if 0 < msg.header.dataSize then rest[HEADER_SIZE..][..msg.header.dataSize] else [];
      assert Step(rest, accepted) == Dispatch(msg.header, msg.data, accepted);

      if msg.header.kind == DATA {
        console := console + [Received(msg.header.messageId, msg.data)];
        if !running {
          return true, Normal;
        }
        outcome := SendAck(sock, msg.header.messageId);
      } else if msg.header.kind == ACK {
        console := console + [AckReceived(msg.header.messageId)];
      }
    }

    /** The receive loop: runs as Run describes on the input not yet read
        and the sends still to come, leaving the cursor after what it
        consumed. */
    method HandleConnection(sock: Socket) returns (outcome: Outcome)
      requires sock.Valid()
      modifies this`console, sock`cursor, sock`sendResults, sock`written
      ensures sock.Valid() && old(sock.cursor) <= sock.cursor
      ensures var t := Run(old(sock.Remaining()), running, old(sock.sendResults));
              && sock.written == old(sock.written) + t.writes
              && console == old(console) + t.events
              && sock.cursor == old(sock.cursor) + t.consumed
              && sock.sendResults == AfterSends(old(sock.sendResults), t.sends)
              && outcome == t.outcome
    {
      ghost var start, startResults := sock.Remaining(), sock.sendResults;
      outcome := Normal;
      while running
        invariant sock.Valid() && old(sock.cursor) <= sock.cursor
        invariant outcome == Normal
        // what the whole loop does is what has been done plus what is left
        invariant var whole := Run(start, running, startResults);
                  var left := Run(sock.Remaining(), running, sock.sendResults);
                  && old(sock.written) + whole.writes == sock.written + left.writes
                  && old(console) + whole.events == console + left.events
                  && old(sock.cursor) + whole.consumed == sock.cursor + left.consumed
                  && AfterSends(startResults, whole.sends) == AfterSends(sock.sendResults, left.sends)
                  && whole.outcome == left.outcome
        decreases |sock.input| - sock.cursor
      {
        ghost var rest, results := sock.Remaining(), sock.sendResults;
        ghost var writtenBefore, consoleBefore := sock.written, console;
        var stop, result := HandleOneFrame(sock);
        if stop {
          break;
        }
        ghost var step := Step(rest, NextAccepted(results));
        Advance(rest, results);
        if result.Threw? {
          outcome := result;
          return;
        }
        assert sock.Remaining() == rest[step.consumed..];
        ghost var next := Run(sock.Remaining(), running, sock.sendResults);
        AppendThen(writtenBefore, consoleBefore, step, next);
        AfterSendsAdd(results, step.sends, next.sends);
      }
    }
  }
}
