/**
 * Both ends of the RPC protocol at their data buffers: headers are peeked at, and nothing is taken out before a frame
 * has arrived completely.
 */
module RpcStreams {
  import opened Bytes
  import opened DataBuffer
  import opened Framing

  // FAILED also says whether a descriptor was found; ASSERTED, that an assertion of the decoder does not hold.
  datatype Status<F> = INCOMPLETE_BUFFER | FAILED(found: bool) | ASSERTED | SUCCESS(frame: F)

  // What a decoder that works on bytes says is what one that works on a buffer does.
  ghost predicate Does<F>(d: Decoded<F>, status: Status<F>, was: seq<Byte>, now: seq<Byte>) {
    match d
    case Incomplete => status == INCOMPLETE_BUFFER && now == was
    case Unknown => status == FAILED(false)
    case Bad => status == FAILED(true)
    case Asserts => status == ASSERTED
    case Got(f, rest) => status == SUCCESS(f) && now == rest
  }

  // server_deserialize
  method ServerDeserialize(incoming: Buffer, reader: Reader<Word>) returns (status: Status<Request>)
    requires incoming.Valid()
    modifies incoming, SetOf(incoming.frags)
    ensures incoming.Valid() && SetOf(incoming.frags) <= old(SetOf(incoming.frags))
    ensures
      Does(DecodeRequest(reader, old(incoming.Contents())), status, old(incoming.Contents()), incoming.Contents())
  {
    hide Join, BytesWord, Buffer.Linked, SetOf, DecodeRequest, DecodeReply;
    ghost var b := incoming.Contents();
    RequestShort(reader, b);
    if incoming.size < 12 { return INCOMPLETE_BUFFER; }
    var header := incoming.Peek(12);
    var index := BytesWord(header[0..4]);
    var n: int := BytesWord(header[4..8]);
    if incoming.size < 12 + n { return INCOMPLETE_BUFFER; }
    RequestKnown(reader, b, header);
    if !reader.known(index) { return FAILED(false); }
    var count := incoming.Discard(12);
    var message := incoming.Read(n);
    RequestTaken(reader, b, header, message, incoming.Contents());
    if !reader.unpacks(index, message) { return FAILED(true); }
    status := SUCCESS(Request(index, header[8..12], message));
  }

  // client_deserialize
  method ClientDeserialize(incoming: Buffer, reader: Reader<Id>) returns (status: Status<Reply>)
    requires incoming.Valid()
    modifies incoming, SetOf(incoming.frags)
    ensures incoming.Valid() && SetOf(incoming.frags) <= old(SetOf(incoming.frags))
    ensures Does(DecodeReply(reader, old(incoming.Contents())), status, old(incoming.Contents()), incoming.Contents())
  {
    hide Join, BytesWord, Buffer.Linked, SetOf, DecodeRequest, DecodeReply;
    ghost var b := incoming.Contents();
    ReplyShort(reader, b);
    if incoming.size < 16 { return INCOMPLETE_BUFFER; }
    var header := incoming.Peek(16);
    var code, index := BytesWord(header[0..4]), BytesWord(header[4..8]);
    var n: int := BytesWord(header[8..12]);
    if 16 + n > incoming.size { return INCOMPLETE_BUFFER; }
    var count := incoming.Discard(16);
    if code == STATUS_SUCCESS {
      ReplyKnown(reader, b, header);
      if !reader.known(header[12..16]) { return FAILED(false); }
      var message := incoming.Read(n);
      ReplyTaken(reader, b, header, message, incoming.Contents());
      if !reader.unpacks(header[12..16], message) { return FAILED(true); }
      status := SUCCESS(Reply(index, header[12..16], Message(message)));
    } else {
      RefusalTaken(reader, b, header, incoming.Contents());
      if n != 0 { return ASSERTED; }
      status := SUCCESS(Reply(index, header[12..16], NoMessage));
    }
  }

  lemma RequestShort(reader: Reader<Word>, b: seq<Byte>)
    ensures |b| < 12 ==> DecodeRequest(reader, b) == Incomplete
    ensures |b| >= 12 ==> |b[..12][4..8]| == 4
    ensures |b| >= 12 && |b| < 12 + BytesWord(b[..12][4..8]) as int ==> DecodeRequest(reader, b) == Incomplete
  {
    if |b| >= 12 { assert b[..12][4..8] == b[4..8]; }
  }

  lemma RequestKnown(reader: Reader<Word>, b: seq<Byte>, header: seq<Byte>)
    requires |b| >= 12 && header == b[..12] && |b| >= 12 + BytesWord(header[4..8]) as int
    ensures !reader.known(BytesWord(header[0..4])) ==> DecodeRequest(reader, b) == Unknown
  {
    assert header[0..4] == b[0..4] && header[4..8] == b[4..8];
  }

  lemma RequestTaken(reader: Reader<Word>, b: seq<Byte>, header: seq<Byte>, message: Packed, rest: seq<Byte>)
    requires |b| >= 12 && header == b[..12] && b[12..] == message + rest && |message| == BytesWord(header[4..8])
    ensures DecodeRequest(reader, b)
         == if !reader.known(BytesWord(header[0..4])) then Unknown
            else if !reader.unpacks(BytesWord(header[0..4]), message) then Bad
            else Got(Request(BytesWord(header[0..4]), header[8..12], message), rest)
  {
    assert header[0..4] == b[0..4] && header[4..8] == b[4..8] && header[8..12] == b[8..12];
    var n := |message|;
    assert b[12..12 + n] == b[12..][..n] == message && b[12 + n..] == b[12..][n..] == rest;
  }

  lemma ReplyShort(reader: Reader<Id>, b: seq<Byte>)
    ensures |b| < 16 ==> DecodeReply(reader, b) == Incomplete
    ensures |b| >= 16 ==> |b[..16][8..12]| == 4
    ensures |b| >= 16 && |b| < 16 + BytesWord(b[..16][8..12]) as int ==> DecodeReply(reader, b) == Incomplete
  {
    if |b| >= 16 { assert b[..16][8..12] == b[8..12]; }
  }

  lemma ReplyKnown(reader: Reader<Id>, b: seq<Byte>, header: seq<Byte>)
    requires |b| >= 16 && header == b[..16] && |b| >= 16 + BytesWord(header[8..12]) as int
    requires BytesWord(header[0..4]) == STATUS_SUCCESS
    ensures !reader.known(header[12..16]) ==> DecodeReply(reader, b) == Unknown
  {
    assert header[0..4] == b[0..4] && header[8..12] == b[8..12] && header[12..16] == b[12..16];
  }

  lemma ReplyTaken(reader: Reader<Id>, b: seq<Byte>, header: seq<Byte>, message: Packed, rest: seq<Byte>)
    requires |b| >= 16 && header == b[..16] && b[16..] == message + rest && |message| == BytesWord(header[8..12])
    requires BytesWord(header[0..4]) == STATUS_SUCCESS
    ensures DecodeReply(reader, b)
         == if !reader.known(header[12..16]) then Unknown
            else if !reader.unpacks(header[12..16], message) then Bad
            else Got(Reply(BytesWord(header[4..8]), header[12..16], Message(message)), rest)
  {
    assert header[0..4] == b[0..4] && header[4..8] == b[4..8] && header[8..12] == b[8..12] &&
      header[12..16] == b[12..16];
    var n := |message|;
    assert b[16..16 + n] == b[16..][..n] == message && b[16 + n..] == b[16..][n..] == rest;
  }

  lemma RefusalTaken(reader: Reader<Id>, b: seq<Byte>, header: seq<Byte>, rest: seq<Byte>)
    requires |b| >= 16 && header == b[..16] && b[16..] == rest && |b| >= 16 + BytesWord(header[8..12]) as int
    requires BytesWord(header[0..4]) != STATUS_SUCCESS
    ensures DecodeReply(reader, b)
         == if BytesWord(header[8..12]) == 0
            then Got(Reply(BytesWord(header[4..8]), header[12..16], NoMessage), rest) else Asserts
  {
    assert header[0..4] == b[0..4] && header[4..8] == b[4..8] && header[8..12] == b[8..12] &&
      header[12..16] == b[12..16];
  }
}
