/** The chat frame: a packed 9-byte header (type tag, message id, payload
    size) followed by the payload bytes, and the conversions between a
    message value and its bytes.

    The original copies the packed header struct as raw host memory; this
    model fixes one explicit byte order (little-endian) for the two 32-bit
    fields. The type tag is kept as a plain byte, because reading a header
    never checks it: tags other than DATA and ACK stay representable. */
module MessageFormat {

  type Byte = b: int | 0 <= b < 0x100
  type Uint32 = x: int | 0 <= x < 0x1_0000_0000

  const UINT32_MODULUS: int := 0x1_0000_0000

  /** Values of the type tag (enum class MessageType : uint8_t). */
  const DATA: Byte := 1
  const ACK: Byte := 2

  /** sizeof(MessageHeader) of the packed struct: 1 + 4 + 4. */
  const HEADER_SIZE: nat := 9
  /** The size a whole frame is meant to fit in. */
  const FRAME_LIMIT: nat := 4096
  /** Message::MAX_DATA_SIZE. */
  const MAX_DATA_SIZE: nat := FRAME_LIMIT - HEADER_SIZE

  datatype MessageHeader = MessageHeader(kind: Byte, messageId: Uint32, dataSize: Uint32)

  datatype Message = Message(header: MessageHeader, data: seq<Byte>)

  datatype Failure = InvalidHeaderSize | IncompleteMessageData

  datatype Result<T> = Ok(value: T) | Err(error: Failure)

  /** A message whose recorded size is the length of its payload. */
  predicate WellFormed(m: Message) {
    m.header.dataSize == |m.data|
  }

  /** MessageHeader(): a DATA header with id 0 and no payload; on the wire,
      the tag byte 1 and eight zero bytes. */
  function DefaultHeader(): (h: MessageHeader)
    ensures EncodeHeader(h) == [DATA, 0, 0, 0, 0, 0, 0, 0, 0]
  {
    MessageHeader(DATA, 0, 0)
  }

  /** Message(): the default header and an empty payload, a well-formed
      message whose frame is the bare default header. */
  function DefaultMessage(): (m: Message)
    ensures WellFormed(m) && m.data == []
    ensures Serialize(m) == EncodeHeader(DefaultHeader())
  {
    var m := Message(DefaultHeader(), []);
    assert Serialize(m) == Serialize(m)[..HEADER_SIZE];
    m
  }

  /** Message(type, id, data): the size field is the payload length cast to
      32 bits, which truncates modulo 2^32. */
  function NewMessage(kind: Byte, id: Uint32, data: seq<Byte>): (m: Message)
    ensures |data| < UINT32_MODULUS ==> WellFormed(m)
  {
    Message(MessageHeader(kind, id, |data| % UINT32_MODULUS), data)
  }

  // ---------------------------------------------------------------------
  // 32-bit fields, little-endian

  function EncodeUint32(x: Uint32): (b: seq<Byte>)
    ensures |b| == 4
  {
    [x % 0x100, (x / 0x100) % 0x100, (x / 0x1_0000) % 0x100, x / 0x100_0000]
  }

  function DecodeUint32(b: seq<Byte>): Uint32
    requires |b| == 4
  {
    b[0] as int + 0x100 * b[1] as int + 0x1_0000 * b[2] as int + 0x100_0000 * b[3] as int
  }

  lemma DecodeEncodeUint32(x: Uint32)
    ensures DecodeUint32(EncodeUint32(x)) == x
  {
    var q1 := x / 0x100;
    var q2 := q1 / 0x100;
    var q3 := q2 / 0x100;
    var r0, r1, r2 := x % 0x100, q1 % 0x100, q2 % 0x100;
    SplitAtByte1(x, r0, q1);
    SplitAtByte1(q1, r1, q2);
    SplitAtByte1(q2, r2, q3);
    SplitAtByte2(x, r0 + 0x100 * r1, q2);
    SplitAtByte3(x, r0 + 0x100 * r1 + 0x1_0000 * r2, q3);
  }

  /** x split at a byte boundary into the bytes below it and the rest. */
  lemma SplitAtByte1(x: int, low: int, high: int)
    requires x == low + 0x100 * high && 0 <= low < 0x100
    ensures x % 0x100 == low && x / 0x100 == high
  {
  }

  lemma SplitAtByte2(x: int, low: int, high: int)
    requires x == low + 0x1_0000 * high && 0 <= low < 0x1_0000
    ensures x / 0x1_0000 == high
  {
  }

  lemma SplitAtByte3(x: int, low: int, high: int)
    requires x == low + 0x100_0000 * high && 0 <= low < 0x100_0000
    ensures x / 0x100_0000 == high
  {
  }

  lemma EncodeDecodeUint32(b: seq<Byte>)
    requires |b| == 4
    ensures EncodeUint32(DecodeUint32(b)) == b
  {
    var x := DecodeUint32(b);
    var b0, b1, b2, b3 := b[0] as int, b[1] as int, b[2] as int, b[3] as int;
    var q1 := b1 + 0x100 * b2 + 0x1_0000 * b3;
    var q2 := b2 + 0x100 * b3;
    SplitAtByte1(x, b0, q1);
    SplitAtByte2(x, b0 + 0x100 * b1, q2);
    SplitAtByte3(x, b0 + 0x100 * b1 + 0x1_0000 * b2, b3);
    SplitAtByte1(q1, b1, q2);
    SplitAtByte1(q2, b2, b3);
  }

  // ---------------------------------------------------------------------
  // The header

  /** The packed layout: the tag at offset 0, the id at offsets 1 to 4 and
      the size at offsets 5 to 8, with no padding between them. */
  function EncodeHeader(h: MessageHeader): (b: seq<Byte>)
    ensures |b| == HEADER_SIZE
    ensures b[0] == h.kind
    ensures b[1..5] == EncodeUint32(h.messageId) && b[5..9] == EncodeUint32(h.dataSize)
  {
    [h.kind] + EncodeUint32(h.messageId) + EncodeUint32(h.dataSize)
  }

  /** Reads a header from 9 bytes; the tag is taken as it is. */
  function DecodeHeader(b: seq<Byte>): MessageHeader
    requires |b| == HEADER_SIZE
  {
    MessageHeader(b[0], DecodeUint32(b[1..5]), DecodeUint32(b[5..9]))
  }

  /** Every header is read back exactly as it was written. */
  lemma DecodeEncodeHeader(h: MessageHeader)
    ensures DecodeHeader(EncodeHeader(h)) == h
  {
    var b := EncodeHeader(h);
    assert b[1..5] == EncodeUint32(h.messageId);
    assert b[5..9] == EncodeUint32(h.dataSize);
    DecodeEncodeUint32(h.messageId);
    DecodeEncodeUint32(h.dataSize);
  }

  /** Every 9 bytes are the encoding of the header read from them: nothing
      is refused or normalised, the tag included, so two different byte
      strings never read as the same header. */
  lemma EncodeDecodeHeader(b: seq<Byte>)
    requires |b| == HEADER_SIZE
    ensures EncodeHeader(DecodeHeader(b)) == b
  {
    EncodeDecodeUint32(b[1..5]);
    EncodeDecodeUint32(b[5..9]);
    assert b == [b[0]] + b[1..5] + b[5..9];
  }

  // ---------------------------------------------------------------------
  // Message::serialize, Message::deserializeHeader, Message::deserializeData

  function Zeros(n: nat): (z: seq<Byte>)
    ensures |z| == n
  {
    seq(n, _ => 0)
  }

  /** The buffer is sized for the header and the recorded payload size and
      zero-filled; the header and then the payload are copied into it. A
      payload longer than the recorded size would overflow the buffer, so
      callers must not pass one. */
  function Serialize(m: Message): (r: seq<Byte>)
    requires |m.data| <= m.header.dataSize
    ensures |r| == HEADER_SIZE + m.header.dataSize
    ensures r[..HEADER_SIZE] == EncodeHeader(m.header)
    ensures r[HEADER_SIZE..HEADER_SIZE + |m.data|] == m.data
    ensures forall i | HEADER_SIZE + |m.data| <= i < |r| :: r[i] == 0
  {
    var r := EncodeHeader(m.header) + m.data + Zeros(m.header.dataSize - |m.data|);
    assert r[HEADER_SIZE..HEADER_SIZE + |m.data|] == m.data;
    r
  }

  /** Overwrites the header with the one encoded in the buffer; anything but
      exactly 9 bytes is refused. The type tag is not checked. */
  function DeserializeHeader(m: Message, buffer: seq<Byte>): (r: Result<Message>)
    ensures r.Ok? <==> |buffer| == HEADER_SIZE
    ensures r.Err? ==> r.error == InvalidHeaderSize
    ensures r.Ok? ==> EncodeHeader(r.value.header) == buffer && r.value.data == m.data
  {
    if |buffer| != HEADER_SIZE then
      Err(InvalidHeaderSize)
    else
      EncodeDecodeHeader(buffer);
      Ok(m.(header := DecodeHeader(buffer)))
  }

  /** With a non-zero recorded size, takes exactly that many bytes from the
      buffer as the payload and ignores the rest, refusing a buffer that is
      too short; with size zero the message is left as it is. */
  function DeserializeData(m: Message, buffer: seq<Byte>): (r: Result<Message>)
    ensures r.Err? <==> 0 < m.header.dataSize && |buffer| < m.header.dataSize
    ensures r.Err? ==> r.error == IncompleteMessageData
    ensures r.Ok? ==> r.value.header == m.header
    ensures r.Ok? && m.header.dataSize == 0 ==> r.value == m
    ensures r.Ok? && 0 < m.header.dataSize ==>
              WellFormed(r.value) && r.value.data == buffer[..m.header.dataSize]
  {
    if m.header.dataSize > 0 then
      if |buffer| < m.header.dataSize then
        Err(IncompleteMessageData)
      else
        Ok(m.(data := buffer[..m.header.dataSize]))
    else
      Ok(m)
  }

  // ---------------------------------------------------------------------
  // Properties of the codec

  /** A message built from a payload that fits records exactly its length;
      an ACK built with the default empty payload records size 0. */
  lemma ConstructorRecordsLength(kind: Byte, id: Uint32, data: seq<Byte>)
    requires |data| <= MAX_DATA_SIZE
    ensures NewMessage(kind, id, data).header.dataSize == |data|
    ensures NewMessage(ACK, id, []).header == MessageHeader(ACK, id, 0)
  {
  }

  /** Bytes 0..9 of a serialized frame read back as its header. */
  lemma HeaderOfSerialize(m: Message, into: Message)
    requires |m.data| <= m.header.dataSize
    ensures DeserializeHeader(into, Serialize(m)[..HEADER_SIZE]) == Ok(into.(header := m.header))
  {
    DecodeEncodeHeader(m.header);
  }

  /** Extra bytes after the payload do not change what is read. */
  lemma DeserializeDataIgnoresExtra(m: Message, buffer: seq<Byte>, extra: seq<Byte>)
    requires m.header.dataSize <= |buffer|
    ensures DeserializeData(m, buffer + extra) == DeserializeData(m, buffer)
  {
    if m.header.dataSize > 0 {
      assert (buffer + extra)[..m.header.dataSize] == buffer[..m.header.dataSize];
    }
  }

  /** Reading the header and then the payload of a serialized well-formed
      message, starting from a default message as the receive loop does,
      gives the message back. */
  lemma RoundTrip(m: Message)
    requires WellFormed(m)
    ensures var frame := Serialize(m);
            var withHeader := DeserializeHeader(DefaultMessage(), frame[..HEADER_SIZE]);
            withHeader.Ok? && DeserializeData(withHeader.value, frame[HEADER_SIZE..]) == Ok(m)
  {
    var frame := Serialize(m);
    HeaderOfSerialize(m, DefaultMessage());
    var withHeader := DefaultMessage().(header := m.header);
    if m.header.dataSize > 0 {
      assert frame[HEADER_SIZE..][..m.header.dataSize] == m.data;
    } else {
      assert m.data == [];
    }
  }

  /** The round trip for every message the constructor can build from a
      payload that send_message accepts. */
  lemma RoundTripOfAccepted(kind: Byte, id: Uint32, data: seq<Byte>)
    requires |data| <= MAX_DATA_SIZE
    ensures var m := NewMessage(kind, id, data);
            var frame := Serialize(m);
            var withHeader := DeserializeHeader(DefaultMessage(), frame[..HEADER_SIZE]);
            withHeader.Ok? && DeserializeData(withHeader.value, frame[HEADER_SIZE..]) == Ok(m)
  {
    RoundTrip(NewMessage(kind, id, data));
  }

  /** MAX_DATA_SIZE is 4087, so a frame for an accepted payload fits in
      4096 bytes. */
  lemma AcceptedFrameFits(kind: Byte, id: Uint32, data: seq<Byte>)
    requires |data| <= MAX_DATA_SIZE
    ensures MAX_DATA_SIZE == 4087
    ensures |Serialize(NewMessage(kind, id, data))| <= FRAME_LIMIT
  {
  }

  /** The ACK frame echoing an id: the header alone. */
  function AckFrame(id: Uint32): (r: seq<Byte>)
    ensures |r| == HEADER_SIZE
    ensures DecodeHeader(r) == MessageHeader(ACK, id, 0)
  {
    var m := NewMessage(ACK, id, []);
    DecodeEncodeHeader(m.header);
    Serialize(m)
  }

  /** Different ids give different ACK frames. */
  lemma AckFrameInjective(id1: Uint32, id2: Uint32)
    requires AckFrame(id1) == AckFrame(id2)
    ensures id1 == id2
  {
  }
}
