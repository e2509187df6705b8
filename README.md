# cppchat: frame codec and connection logic

This project models the two pieces of the cppchat peer that carry its
protocol logic, and proves properties of them.

- **The frame codec (`message.h`).** A frame is a packed 9-byte header
  (a 1-byte type tag, a 32-bit message id and a 32-bit payload size)
  followed by the payload. `Message::serialize` lays a message out as
  bytes. `deserializeHeader` and `deserializeData` read it back and refuse
  a wrong header size or a short payload.
- **The connection logic of `ChatBase` (`base.cpp`).**
  - the post-incremented 32-bit message id counter;
  - `send_message`, which refuses over-long text and otherwise writes one
    DATA frame;
  - `send_ack`, which writes a 9-byte ACK frame echoing an id;
  - the receive loop `handle_connection`. It reads headers and payloads
    from the stream and skips short ones. It prints DATA and ACK frames,
    acknowledges every DATA frame, and ignores other tags.

## How it is organised

- `message.dfy` (module `MessageFormat`) holds the header and the message
  as datatypes. Its wire codec uses an explicit little-endian byte order.
  `Serialize`, `DeserializeHeader` and `DeserializeData` are functions. The
  two deserializers overwrite fields of the message in the original; here
  they return the updated message, or a `Failure` where the original
  throws a `runtime_error`.
- `console.dfy` (module `Console`) holds what a peer prints, as events.
- `stream.dfy` (module `Stream`) holds the connected socket as a class:
  - the bytes the peer will ever send;
  - a read cursor;
  - the result of each send still to come, in turn;
  - the log of written buffers.

  `Recv(n)` is `recv(..., MSG_WAITALL)`. It returns `min(n, remaining)`
  bytes, so a read comes back short only at the end of the stream.
  Each `Send` takes the next listed result. On success it appends the whole
  buffer; on failure it writes nothing. A send after the listed results
  succeeds.
- `session.dfy` (module `Session`) states what the receive loop does as
  pure functions. `Step` is one iteration and `Run` is the whole loop.
  Both are written over the unread input and the results of the sends
  still to come. They give a `Trace`: the buffers written, the events
  printed, the bytes consumed, the sends made and whether the loop ended
  normally or threw. The protocol properties are proved here about `Run`:
  - one acknowledgement per DATA frame;
  - the loop throws at the first refused send;
  - behaviour on a stream of serialized frames;
  - truncated frames.
- `base.dfy` (module `Base`) holds the class `ChatBase`. Its fields are
  the id counter, the `running` flag and the console as a sequence of
  events. Its methods mirror `get_next_message_id`, `send_ack`,
  `send_message` and `handle_connection`.
  - The body of the `while (running)` loop is the method
    `HandleOneFrame`. Its `break` on a read of no bytes becomes the result
    `stop`.
  - `HandleConnection` is the loop itself. It is proved to do exactly what
    `Run` says about the socket log, the console, the cursor, the sends
    and the outcome.

Some behaviours of the code worth noting, all modelled as written:
- A header read that returns some but fewer than 9 bytes is logged, and
  the loop goes on (base.cpp:61-64). A header read that returns no bytes
  ends the loop (base.cpp:59). The loop also ends when an ACK send is
  refused, which throws (base.cpp:50-51, 85). A cleared `running` ends
  it too (base.cpp:56, 59, 84); the model covers a flag that is already
  clear when the loop starts, but not one cleared while it runs. A failing
  `recv` also ends it, and is not modelled either (see "## Left out").
- The type tag is never checked when a header is read (message.h:44-45).
  A frame with an unknown tag is read and then skipped without a notice
  (base.cpp:81-88).
- Nothing tracks which DATA frames have been acknowledged, and nothing
  measures latency. An ACK frame that arrives is only printed
  (base.cpp:86-87).
- The id counter is a member of `ChatBase` (base.h:9). The server's
  `run_server_loop` calls `handle_connection` for one client after
  another on the same object (server.cpp:25), so the counter carries on
  across connections.

## Model

| member | source | states |
|---|---|---|
| MessageFormat.DefaultHeader | message.h:18 | the default header goes on the wire as the tag byte 1 (DATA) followed by eight zero bytes: id 0, size 0 |
| MessageFormat.DefaultMessage | message.h:28 | the default message is well formed, has an empty payload, and serializes to its bare 9-byte header |
| MessageFormat.NewMessage | message.h:25-26 | the constructor records the payload length as the size, so a payload under 2^32 bytes gives a well-formed message |
| MessageFormat.ConstructorRecordsLength | message.h:25-26 | a payload of at most MAX_DATA_SIZE bytes is recorded with exactly its length; an ACK built with the default empty payload has size 0 |
| MessageFormat.DecodeEncodeUint32 | message.h:33 | reading back the four bytes of an encoded 32-bit field gives the field |
| MessageFormat.EncodeDecodeUint32 | message.h:44-45 | any four bytes are the encoding of the field read from them |
| MessageFormat.EncodeHeader | message.h:33 | the packed header is 9 bytes: the tag at offset 0, the id at offsets 1 to 4, the size at offsets 5 to 8, with no padding |
| MessageFormat.DecodeEncodeHeader | message.h:11-19 | every header reads back exactly as written |
| MessageFormat.EncodeDecodeHeader | message.h:44-45 | every 9 bytes are the encoding of the header read from them, whatever the tag, so distinct 9-byte strings read as distinct headers |
| MessageFormat.Serialize | message.h:31-38 | the buffer is 9 + data_size bytes long; bytes 0..9 encode the header, the payload follows it, and the rest of the buffer is zero |
| MessageFormat.DeserializeHeader | message.h:40-46 | succeeds exactly when given 9 bytes, and otherwise fails with InvalidHeaderSize; on success the header is the one those bytes encode and the payload is untouched |
| MessageFormat.DeserializeData | message.h:49-56 | fails with IncompleteMessageData exactly when the size is non-zero and the buffer is shorter; otherwise the header is kept, a zero size leaves the message unchanged, and a non-zero size takes exactly the first data_size bytes |
| MessageFormat.HeaderOfSerialize | message.h:31-46 | bytes 0..9 of a serialized message read back as its header |
| MessageFormat.DeserializeDataIgnoresExtra | message.h:49-56 | bytes beyond the recorded size do not change what deserializeData reads |
| MessageFormat.RoundTrip | message.h:31-56 | reading the header and then the payload of a serialized well-formed message, from a default message, gives the message back |
| MessageFormat.RoundTripOfAccepted | message.h:23-56 | the round trip holds for every message the constructor builds from a payload of at most MAX_DATA_SIZE bytes |
| MessageFormat.AcceptedFrameFits | message.h:19-23 | MAX_DATA_SIZE is 4087, and the frame of any accepted payload is at most 4096 bytes |
| MessageFormat.AckFrame | base.cpp:48-49 | the ACK frame for an id is 9 bytes that read back as the header (ACK, id, 0) |
| MessageFormat.AckFrameInjective | base.cpp:48-49 | different ids give different ACK frames |
| Stream.Socket.Recv | base.cpp:58 | a MSG_WAITALL read returns min(n, remaining) bytes, which are the next bytes of the input; the cursor never moves back and never passes the end |
| Stream.Socket.Send | base.cpp:50 | each send uses up the next listed result; it succeeds exactly when that result says so, and then appends the whole buffer to the log; a failed send writes nothing |
| Session.Dispatch | base.cpp:81-88 | a whole frame, whatever its tag, consumes exactly 9 + data_size bytes; what it prints, sends and writes is stated by StepAcks, StepSends and StepOnFrame |
| Session.Step | base.cpp:57-88 | one iteration consumes at least one and at most the remaining bytes, so the loop always advances, and makes at most one send; what it prints and writes is stated by StepAcks, StepSends, StepOnFrame and TruncatedFrame |
| Session.Run | base.cpp:55-89 | the loop never consumes more than the input |
| Session.StepAcks | base.cpp:81-85 | one iteration makes one send per DATA frame it prints, and writes its ACK unless that send was refused |
| Session.StepSends | base.cpp:81-85 | one iteration throws exactly when it makes a send and the socket refuses it |
| Session.OneAckPerDataFrame | base.cpp:81-85 | whatever the input and whichever sends fail, the loop makes one send per DATA frame it prints and writes exactly one ACK frame per DATA frame, with the same id, in arrival order, and nothing else; when it throws, only the ACK of the last DATA frame is missing |
| Session.ThrowsAtFirstRefusal | base.cpp:50-51 | every send the loop makes succeeds, except that a loop that throws stops at the first refused send, which is its last |
| Session.NotRunningDoesNothing | base.cpp:56 | with running false the loop reads, prints and writes nothing |
| Session.RunEndsAtStreamEnd | base.cpp:58-59 | a running loop that ends normally has consumed the whole stream; it throws only when an ACK cannot be sent |
| Session.StepOnFrame | base.cpp:57-88 | on a stream that starts with a whole serialized frame and a send that succeeds, one iteration consumes exactly that frame, prints it, and acknowledges it if it is DATA |
| Session.RunAfterFrame | base.cpp:55-89 | after a whole frame the loop goes on with what follows it |
| Session.RunOnFrames | base.cpp:55-89 | on whole frames followed by any tail, on a socket that accepts every send, the loop handles the frames in order and then the tail |
| Session.RunOnStream | base.cpp:55-89 | on a stream of serialized frames with running true and every send accepted, it writes one ACK per DATA frame with matching id in arrival order, nothing for ACK or unknown tags, and ends normally having consumed the stream |
| Session.TruncatedFrame | base.cpp:61-76 | a frame cut short by the end of the stream makes no send and prints one IncompleteHeader or IncompleteData notice, after which the loop stops |
| Session.TruncatedStream | base.cpp:55-89 | whole frames followed by a cut-short frame: the whole frames are handled as usual, and the last one gets a notice and no ACK |
| Base.NextId | base.cpp:128-130 | the 32-bit post-increment adds one and wraps to 0 after 2^32 - 1 |
| Base.IdsFrom | base.cpp:128-130 | the ids that n post-increments of the counter hand out, each as GetNextMessageId returns it: the first is the starting counter, and each one after it is the post-increment of the one before |
| Base.IdsFromAt | base.cpp:128-130 | the i-th id handed out is the starting counter plus i, modulo 2^32 |
| Base.IdsFromZero | base.h:9 | a counter starting at 0 hands out 0, 1, 2, ... until it wraps |
| Base.IdsDistinct | base.cpp:128-130 | up to 2^32 successive ids are pairwise distinct |
| Base.ChatBase.constructor | base.h:9 | the counter starts at 0 and the peer starts running |
| Base.ChatBase.GetNextMessageId | base.cpp:128-130 | returns the counter and leaves it post-incremented modulo 2^32 |
| Base.ChatBase.SendAck | base.cpp:47-53 | makes one send; writes exactly the 9-byte ACK frame for the id when that send succeeds; otherwise writes nothing and throws |
| Base.ChatBase.SendMessage | base.cpp:115-126 | an over-long text only gives a notice: no id is taken, no send is made and nothing is written; otherwise one send is made, of the serialization of DATA with the old counter and the text, and the counter advances by one even if the send fails, which throws |
| Base.ChatBase.HandleOneFrame | base.cpp:57-88 | one pass of the loop body stops, changing nothing, exactly when the input is exhausted; otherwise it writes, prints, consumes, uses up send results and ends as Step describes |
| Base.ChatBase.HandleConnection | base.cpp:55-90 | the loop writes, prints, consumes, uses up send results and ends exactly as Run describes on the unread input and the sends still to come; the cursor only moves forward and stays within the input |

## Left out

- Socket creation, bind, listen, accept and connect are left out: they are operating-system I/O. So are the signal handler and the destructor's shutdown, close and thread join.
- Threads are left out. The `receive_thread` and the atomic `running` flag shared between threads are not modelled. `running` is a plain field, and nothing changes it while the loop runs.
- Console output is recorded as abstract events (received id and text, ACK id, the three notices), not as text.
- Stream.Socket.Send: a short send, where `send` returns a count below the buffer size, is not modelled. The source treats any non-negative return as success (base.cpp:50, 123), and the model writes the whole buffer on every success.
- Which sends fail is an input to the model, the list of send results, not something it derives from the connection's state.
- A `recv` that fails with -1 is not modelled. Neither is a MSG_WAITALL read cut short by a signal. A read returns fewer bytes than asked only at the end of the stream.
- Payload buffers of any announced size are assumed to be allocatable. A `std::bad_alloc` on a huge announced `data_size` is not modelled.
- The header's host-memory layout is replaced by an explicit little-endian byte order. The round trips do not depend on which order is chosen.
- MessageFormat.Serialize: requires the payload to be no longer than the recorded size. Otherwise the original's memcpy overflows the buffer, which is undefined behaviour. Every message the constructor builds from under 2^32 bytes meets this.
- Base.ChatBase.HandleOneFrame: requires `running`, because the loop body only runs after the loop guard has seen it set and nothing in the model clears it. The body's own `!running` checks are therefore never taken.
- The command-line driver, the server and client roles, and their input loops are not part of this model.
