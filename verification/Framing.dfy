/**
 * The default framing of the RPC protocol: a header of 32-bit words followed by the packed message.  Numbers are
 * little-endian, except that a request id is four bytes that only the client looks into.
 */
module Framing {
  import opened Bytes

  type Id = Four
  type Packed = b: seq<Byte> | |b| < 0x1_0000_0000

  // ---- request ids ----

  // A request id in the byte order of the client's machine.
  function IdBytes(bigEndian: bool, id: Word): Id {
    if bigEndian then Reversed(WordBytes(id)) else WordBytes(id)
  }

  function BytesId(bigEndian: bool, b: Id): Word {
    BytesWord(if bigEndian then Reversed(b) else b)
  }

  lemma IdRoundTrip(bigEndian: bool, id: Word)
    ensures BytesId(bigEndian, IdBytes(bigEndian, id)) == id
  {
    WordRoundTrip(id);
  }

  // ---- frames ----

  // A request as it travels: the id is opaque bytes.
  datatype Request = Request(index: Word, id: Id, message: Packed)

  // What a call ends with; null stands for no message.
  datatype Outcome = Message(bytes: Packed) | NoMessage

  datatype Reply = Reply(index: Word, id: Id, outcome: Outcome)

  // What a decoder makes of the bytes that are there: a frame that is not complete, one for which there is no
  // descriptor, one whose message does not unpack, one that trips an assertion, or a frame.
  datatype Decoded<F> = Incomplete | Unknown | Bad | Asserts | Got(frame: F, rest: seq<Byte>)

  // How messages are read: for which keys there is a descriptor, and which bytes unpack with it.
  datatype Reader<!K> = Reader(known: K -> bool, unpacks: (K, Packed) -> bool) {
    predicate Takes(key: K, m: Packed) {
      known(key) && unpacks(key, m)
    }
  }

  const STATUS_SUCCESS: Word := 0
  const STATUS_FAILED: Word := 1

  // client_serialize
  function EncodeRequest(r: Request): (b: seq<Byte>)
    ensures |b| == 12 + |r.message|
  {
    WordBytes(r.index) + WordBytes(|r.message|) + r.id + r.message
  }

  // server_deserialize; the reader knows the methods by their index.
  function DecodeRequest(reader: Reader<Word>, b: seq<Byte>): (d: Decoded<Request>)
    ensures !d.Asserts?
  {
    if |b| < 12 then Incomplete
    else
      var n: int := BytesWord(b[4..8]);
      if |b| < 12 + n then Incomplete
      else
        var index := BytesWord(b[0..4]);
        if !reader.known(index) then Unknown
        else if !reader.unpacks(index, b[12..12 + n]) then Bad
        else Got(Request(index, b[8..12], b[12..12 + n]), b[12 + n..])
  }

  function PackedIn(o: Outcome): Packed {
    match o case Message(m) => m case NoMessage => []
  }

  // server_serialize
  function EncodeReply(r: Reply): (b: seq<Byte>)
    ensures |b| == 16 + |PackedIn(r.outcome)|
  {
    WordBytes(if r.outcome.Message? then STATUS_SUCCESS else STATUS_FAILED) + WordBytes(r.index)
    + WordBytes(|PackedIn(r.outcome)|) + r.id + PackedIn(r.outcome)
  }

  // client_deserialize; the reader knows the calls that wait by their ids.  A reply without success is not looked up,
  // and the assertion is that it announces no message.
  function DecodeReply(reader: Reader<Id>, b: seq<Byte>): Decoded<Reply> {
    if |b| < 16 then Incomplete
    else
      var n: int := BytesWord(b[8..12]);
      if 16 + n > |b| then Incomplete
      else if BytesWord(b[0..4]) == STATUS_SUCCESS then
        if !reader.known(b[12..16]) then Unknown
        else if !reader.unpacks(b[12..16], b[16..16 + n]) then Bad
        else Got(Reply(BytesWord(b[4..8]), b[12..16], Message(b[16..16 + n])), b[16 + n..])
      else if n == 0 then Got(Reply(BytesWord(b[4..8]), b[12..16], NoMessage), b[16..])
      else Asserts
  }

  lemma RequestRoundTrip(reader: Reader<Word>, r: Request, rest: seq<Byte>)
    ensures DecodeRequest(reader, EncodeRequest(r) + rest)
      == (if !reader.known(r.index) then Unknown else if reader.Takes(r.index, r.message) then Got(r, rest) else Bad)
  {
    var n := |r.message|;
    var b := EncodeRequest(r) + rest;
    WordRoundTrip(r.index);
    WordRoundTrip(n);
    assert b[0..4] == WordBytes(r.index);
    assert b[4..8] == WordBytes(n);
    assert b[8..12] == r.id;
    assert b[12..12 + n] == r.message;
    assert b[12 + n..] == rest;
  }

  lemma ReplyRoundTrip(reader: Reader<Id>, r: Reply, rest: seq<Byte>)
    ensures DecodeReply(reader, EncodeReply(r) + rest)
         == if r.outcome.Message? && !reader.known(r.id) then Unknown
            else if r.outcome.Message? && !reader.unpacks(r.id, r.outcome.bytes) then Bad
            else Got(r, rest)
  {
    var n := |PackedIn(r.outcome)|;
    var b := EncodeReply(r) + rest;
    WordRoundTrip(if r.outcome.Message? then STATUS_SUCCESS else STATUS_FAILED);
    WordRoundTrip(r.index);
    WordRoundTrip(n);
    assert b[0..4] == WordBytes(if r.outcome.Message? then STATUS_SUCCESS else STATUS_FAILED);
    assert b[4..8] == WordBytes(r.index);
    assert b[8..12] == WordBytes(n);
    assert b[12..16] == r.id;
    assert b[16..16 + n] == PackedIn(r.outcome);
    assert b[16 + n..] == rest;
  }

  // ---- the layout of the headers ----

  // Four bytes that stand for a number, the lowest first.
  predicate Stands(b: seq<Byte>, n: int) {
    |b| == 4 && n == b[0] as int + b[1] as int * 256 + b[2] as int * 65536 + b[3] as int * 16777216
  }

  // A request on the wire: method index, length of the message, id, message.
  predicate IsRequest(b: seq<Byte>, index: Word, id: Id, message: seq<Byte>) {
    && |b| == 12 + |message|
    && Stands(b[0..4], index) && Stands(b[4..8], |message|) && b[8..12] == id && b[12..] == message
  }

  // A reply on the wire: status, which is 0 with a message and 1 without, method index, length, id, message.
  predicate IsReply(b: seq<Byte>, index: Word, id: Id, outcome: Outcome) {
    && |b| == 16 + (if outcome.Message? then |outcome.bytes| else 0)
    && Stands(b[0..4], if outcome.Message? then 0 else 1) && Stands(b[4..8], index)
    && Stands(b[8..12], |b| - 16) && b[12..16] == id && (outcome.Message? ==> b[16..] == outcome.bytes)
  }

  lemma RequestLayout(r: Request)
    ensures IsRequest(EncodeRequest(r), r.index, r.id, r.message)
  {
    LittleEndian(r.index);
    LittleEndian(|r.message|);
    var b := EncodeRequest(r);
    assert b[0..4] == WordBytes(r.index) && b[4..8] == WordBytes(|r.message|);
  }

  lemma ReplyLayout(r: Reply)
    ensures IsReply(EncodeReply(r), r.index, r.id, r.outcome)
  {
    var n, status := |PackedIn(r.outcome)|, if r.outcome.Message? then STATUS_SUCCESS else STATUS_FAILED;
    LittleEndian(status);
    LittleEndian(r.index);
    LittleEndian(n);
    var b := EncodeReply(r);
    assert b[0..4] == WordBytes(status) && b[4..8] == WordBytes(r.index) && b[8..12] == WordBytes(n);
  }

  // An id is a number of the client's machine.
  lemma IdLayout(bigEndian: bool, id: Word)
    ensures var b := IdBytes(bigEndian, id); Stands(if bigEndian then [b[3], b[2], b[1], b[0]] else b, id)
  {
    LittleEndian(id);
  }

  // Only what the other side could have written is decoded, and everything that has its header and as many bytes as
  // that announces is one frame.
  lemma RequestDecoded(reader: Reader<Word>, b: seq<Byte>)
    ensures DecodeRequest(reader, b).Got? ==>
              var d := DecodeRequest(reader, b);
              reader.Takes(d.frame.index, d.frame.message) && b == EncodeRequest(d.frame) + d.rest
    ensures DecodeRequest(reader, b).Incomplete? <==>
              |b| < 12 || forall r, rest :: b != EncodeRequest(r) + rest
    ensures DecodeRequest(reader, b).Unknown? ==>
              exists r, rest :: b == EncodeRequest(r) + rest && !reader.known(r.index)
  {
    if |b| >= 12 && |b| >= 12 + BytesWord(b[4..8]) as int {
      var r, rest := RequestIn(b);
      RequestRoundTrip(reader, r, rest);
    } else if |b| >= 12 {
      forall r, rest ensures b != EncodeRequest(r) + rest {
        if b == EncodeRequest(r) + rest { RequestRoundTrip(reader, r, rest); }
      }
    }
  }

  // What the words of a header say decides what becomes of a reply.  Any status but 0 is one without success.
  lemma ReplyDecoded(reader: Reader<Id>, b: seq<Byte>, status: Word, index: Word, n: Word)
    requires |b| >= 16 && Stands(b[0..4], status) && Stands(b[4..8], index) && Stands(b[8..12], n)
    ensures var d, id := DecodeReply(reader, b), b[12..16];
            && (d.Incomplete? <==> |b| < 16 + n)
            && (d.Unknown? <==> |b| >= 16 + n && status == 0 && !reader.known(id))
            && (d.Bad? <==> |b| >= 16 + n && status == 0 && reader.known(id) && !reader.unpacks(id, b[16..16 + n]))
            && (d.Asserts? <==> |b| >= 16 + n && status != 0 && n != 0)
            && (d.Got? ==> d.frame.index == index && d.frame.id == id && d.rest == b[16 + n..])
            && (d.Got? ==> d.frame.outcome == if status == 0 then Message(b[16..16 + n]) else NoMessage)
  {
    StandsOnce(b[0..4], status);
    StandsOnce(b[4..8], index);
    StandsOnce(b[8..12], n);
  }

  lemma StandsOnce(b: Four, n: Word)
    requires Stands(b, n)
    ensures BytesWord(b) == n
  {
    LittleEndian(BytesWord(b));
    BytesRoundTrip(b);
  }

  lemma RequestIn(b: seq<Byte>) returns (r: Request, rest: seq<Byte>)
    requires |b| >= 12 && |b| >= 12 + BytesWord(b[4..8]) as int
    ensures b == EncodeRequest(r) + rest
  {
    var n: int := BytesWord(b[4..8]);
    r, rest := Request(BytesWord(b[0..4]), b[8..12], b[12..12 + n]), b[12 + n..];
    BytesRoundTrip(b[0..4]);
    BytesRoundTrip(b[4..8]);
    assert b == b[0..4] + b[4..8] + b[8..12] + b[12..12 + n] + rest;
  }

  // ---- bytes that arrive later ----

  lemma Earlier(a: seq<Byte>, b: seq<Byte>, i: nat, j: nat)
    requires i <= j <= |a|
    ensures (a + b)[i..j] == a[i..j] && (a + b)[j..] == a[j..] + b
  {
  }

  // Later bytes do not change what a decoder takes, and what it takes is not empty.
  lemma RequestSteady(reader: Reader<Word>, a: seq<Byte>, b: seq<Byte>)
    requires DecodeRequest(reader, a) != Incomplete
    ensures a != []
    ensures !DecodeRequest(reader, a).Got? ==> DecodeRequest(reader, a + b) == DecodeRequest(reader, a)
    ensures DecodeRequest(reader, a).Got? ==>
              var d := DecodeRequest(reader, a);
              |d.rest| < |a| && DecodeRequest(reader, a + b) == Got(d.frame, d.rest + b)
  {
    var n: int := BytesWord(a[4..8]);
    Earlier(a, b, 0, 4);
    Earlier(a, b, 4, 8);
    Earlier(a, b, 8, 12);
    Earlier(a, b, 12, 12 + n);
  }

  lemma ReplySteady(reader: Reader<Id>, a: seq<Byte>, b: seq<Byte>)
    requires DecodeReply(reader, a) != Incomplete
    ensures a != []
    ensures !DecodeReply(reader, a).Got? ==> DecodeReply(reader, a + b) == DecodeReply(reader, a)
    ensures DecodeReply(reader, a).Got? ==>
              var d := DecodeReply(reader, a);
              |d.rest| < |a| && DecodeReply(reader, a + b) == Got(d.frame, d.rest + b)
  {
    var n: int := BytesWord(a[8..12]);
    Earlier(a, b, 0, 4);
    Earlier(a, b, 4, 8);
    Earlier(a, b, 8, 12);
    Earlier(a, b, 12, 16);
    Earlier(a, b, 16, 16 + n);
  }

  // A frame that has not arrived completely is left alone.
  lemma RequestPrefix(reader: Reader<Word>, r: Request, k: nat)
    requires k < |EncodeRequest(r)|
    ensures DecodeRequest(reader, EncodeRequest(r)[..k]) == Incomplete
  {
    var a, b := EncodeRequest(r)[..k], EncodeRequest(r)[k..];
    assert a + b == EncodeRequest(r) + [];
    RequestRoundTrip(reader, r, []);
    if k >= 12 {
      WordRoundTrip(|r.message|);
      assert a[4..8] == EncodeRequest(r)[4..8] == WordBytes(|r.message|);
    }
  }

  lemma ReplyPrefix(reader: Reader<Id>, r: Reply, k: nat)
    requires k < |EncodeReply(r)|
    ensures DecodeReply(reader, EncodeReply(r)[..k]) == Incomplete
  {
    var a := EncodeReply(r)[..k];
    if k >= 16 {
      WordRoundTrip(|PackedIn(r.outcome)|);
      assert a[8..12] == EncodeReply(r)[8..12] == WordBytes(|PackedIn(r.outcome)|);
    }
  }

  // ---- the server's decode loop ----

  // What a loop takes out of the bytes that have arrived, the bytes at which it stops, and what stops it there.
  datatype Taken<F> = Taken(frames: seq<F>, rest: seq<Byte>, stop: Decoded<F>)

  function TakeAll(reader: Reader<Word>, b: seq<Byte>): Taken<Request>
    decreases |b|
  {
    var d := DecodeRequest(reader, b);
    if d.Got? then Before([d.frame], TakeAll(reader, d.rest)) else Taken([], b, d)
  }

  // Frames that were taken before.
  function Before<F>(frames: seq<F>, t: Taken<F>): Taken<F> {
    Taken(frames + t.frames, t.rest, t.stop)
  }

  lemma NoneBefore<F>(t: Taken<F>)
    ensures Before([], t) == t
  {
    assert [] + t.frames == t.frames;
  }

  lemma OneBefore<F>(frames: seq<F>, f: F, t: Taken<F>)
    ensures Before(frames, Before([f], t)) == Before(frames + [f], t)
  {
    assert frames + ([f] + t.frames) == frames + [f] + t.frames;
  }

  // One chunk after the other is read, and the loop runs after each.
  function TakeChunks(reader: Reader<Word>, left: seq<Byte>, chunks: seq<seq<Byte>>): Taken<Request>
    decreases |chunks|
  {
    if chunks == [] then Taken([], left, Incomplete)
    else
      var t := TakeAll(reader, left + chunks[0]);
      if t.stop != Incomplete then t
      else var u := TakeChunks(reader, t.rest, chunks[1..]); Taken(t.frames + u.frames, u.rest, u.stop)
  }

  function Joined(chunks: seq<seq<Byte>>): seq<Byte> {
    if chunks == [] then [] else chunks[0] + Joined(chunks[1..])
  }

  lemma {:induction false} TakeMore(reader: Reader<Word>, a: seq<Byte>, b: seq<Byte>)
    ensures var t, u := TakeAll(reader, a), TakeAll(reader, a + b);
            if t.stop != Incomplete then u.stop == t.stop && u.frames == t.frames
            else var v := TakeAll(reader, t.rest + b); u == Taken(t.frames + v.frames, v.rest, v.stop)
    decreases |a|
  {
    hide DecodeRequest;
    if DecodeRequest(reader, a) != Incomplete { RequestSteady(reader, a, b); }
    match DecodeRequest(reader, a)
    case Incomplete =>
      assert [] + TakeAll(reader, a + b).frames == TakeAll(reader, a + b).frames;
    case Unknown =>
    case Bad =>
    case Asserts =>
    case Got(f, rest) =>
      TakeMore(reader, rest, b);
      var t := TakeAll(reader, rest);
      var v := TakeAll(reader, t.rest + b);
      assert [f] + (t.frames + v.frames) == [f] + t.frames + v.frames;
  }

  // The loop leaves nothing that it could take, and what stops it is seen at the bytes that it leaves.
  lemma {:induction false} TakenAll(reader: Reader<Word>, b: seq<Byte>)
    ensures var t := TakeAll(reader, b);
            DecodeRequest(reader, t.rest) == t.stop && (t.stop.Incomplete? || t.stop.Unknown? || t.stop.Bad?)
    decreases |b|
  {
    if DecodeRequest(reader, b).Got? { TakenAll(reader, DecodeRequest(reader, b).rest); }
  }

  // The requests taken depend only on the bytes, not on how the reads split them.
  lemma {:induction false} ChunksDoNotMatter(reader: Reader<Word>, left: seq<Byte>, chunks: seq<seq<Byte>>)
    requires DecodeRequest(reader, left) == Incomplete
    ensures var t, u := TakeChunks(reader, left, chunks), TakeAll(reader, left + Joined(chunks));
            t.frames == u.frames && t.stop == u.stop && (t.stop == Incomplete ==> t.rest == u.rest)
    decreases |chunks|
  {
    hide DecodeRequest;
    if chunks == [] {
      assert left + Joined(chunks) == left;
    } else {
      var t := TakeAll(reader, left + chunks[0]);
      TakeMore(reader, left + chunks[0], Joined(chunks[1..]));
      assert left + chunks[0] + Joined(chunks[1..]) == left + Joined(chunks);
      if t.stop == Incomplete {
        TakenAll(reader, left + chunks[0]);
        ChunksDoNotMatter(reader, t.rest, chunks[1..]);
      }
    }
  }
}
