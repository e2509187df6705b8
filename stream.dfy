/** The connected stream socket the chat peers read from and write to,
    abstracted to the bytes the peer will ever send (with a read cursor) and
    the log of buffers written to it. */
module Stream {
  import opened MessageFormat

  function Min(a: nat, b: nat): nat {
    if a <= b then a else b
  }

  /** Whether the next send succeeds, given the results listed for the
      sends still to come; a send after the listed ones succeeds. */
  function NextAccepted(results: seq<bool>): bool {
    results == [] || results[0]
  }

  /** The results left for the sends after the next n. */
  function AfterSends(results: seq<bool>, n: nat): (later: seq<bool>)
    ensures |later| == if n <= |results| then |results| - n else 0
  {
    if n <= |results| then results[n..] else []
  }

  class Socket {
    /** Everything the peer sends before closing its side. */
    const input: seq<Byte>
    /** How much of the input has been received. */
    var cursor: nat
    /** The result of each send still to come, in turn: true where the
        buffer is written, false where send reports an error (a reset
        connection, say). */
    var sendResults: seq<bool>
    /** The buffers written so far, in order. */
    var written: seq<seq<Byte>>

    ghost predicate Valid()
      reads this
    {
      cursor <= |input|
    }

    /** The input not yet received. */
    function Remaining(): seq<Byte>
      reads this
      requires Valid()
    {
      input[cursor..]
    }

    constructor (input: seq<Byte>, sendResults: seq<bool>)
      ensures Valid()
      ensures this.input == input && this.sendResults == sendResults
      ensures cursor == 0 && written == []
    {
      this.input := input;
      this.sendResults := sendResults;
      cursor := 0;
      written := [];
    }

    /** recv(sock, buffer, n, MSG_WAITALL): blocks until n bytes have arrived
        or the peer has closed, so it returns n bytes, or fewer only at the
        end of the stream (0 once the stream is exhausted). */
    method Recv(n: nat) returns (buffer: seq<Byte>)
      requires Valid()
      modifies this`cursor
      ensures Valid()
      ensures |buffer| == Min(n, |old(Remaining())|)
      ensures old(Remaining()) == buffer + Remaining()
    {
      var count := Min(n, |input| - cursor);
      buffer := input[cursor..cursor + count];
      cursor := cursor + count;
    }

    /** send(sock, buffer, size, 0): the whole buffer is written, or an error
        is reported and nothing is; which of the two is decided per call by
        sendResults. */
    method Send(buffer: seq<Byte>) returns (ok: bool)
      modifies this`sendResults, this`written
      ensures ok == NextAccepted(old(sendResults))
      ensures sendResults == AfterSends(old(sendResults), 1)
      ensures written == if ok then old(written) + [buffer] else old(written)
    {
      ok := NextAccepted(sendResults);
      sendResults := AfterSends(sendResults, 1);
      if ok {
        written := written + [buffer];
      }
    }
  }
}
