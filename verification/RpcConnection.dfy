/**
 * One connection between a client and a server as a transition system.  Requests and replies travel as bytes that may
 * be cut anywhere; the server answers in any order; request ids are used again once their reply has been handled.
 *
 * A call is known by its number: the k-th invocation of the client.  The server numbers the requests that it decodes.
 * That both mean the same call is a theorem, not an assumption.
 */
module RpcConnection {
  import opened Bytes
  import opened Framing

  // What both ends know of the service: the number of its methods, which bytes unpack as the input or output of a
  // method, and the byte order in which the client stores its ids.
  datatype Service = Service(methods: Word, input: (Word, Packed) -> bool, output: (Word, Packed) -> bool,
                             bigEndian: bool) {
    // The server looks methods up by their index.
    function Requests(): Reader<Word> {
      Reader((index: Word) => index < methods, input)
    }
  }

  // An outstanding call: its closure and the method whose output it awaits.
  datatype Call = Call(number: nat, index: Word)

  datatype Answer = Answer(call: nat, reply: Reply)

  datatype Done = Done(call: nat, outcome: Outcome)

  datatype Connection = Connection(
    clientUp: bool, serverUp: bool,
    waiting: map<Word, Call>,
    clientOut: seq<Byte>, toServer: seq<Byte>, serverIn: seq<Byte>,
    pending: map<nat, Request>,
    serverOut: seq<Byte>, toClient: seq<Byte>, clientIn: seq<Byte>,
    // what has happened so far: requests invoked, requests decoded, answers given, closures called
    issued: seq<Request>, served: seq<Request>, answers: seq<Answer>, done: seq<Done>)

  datatype Event =
    | Invoke(index: Word, message: Packed, id: Word)
    | SendRequests(n: nat)
    | ReceiveRequests(n: nat)
    | Serve
    | Respond(call: nat, outcome: Outcome)
    | SendReplies(n: nat)
    | ReceiveReplies(n: nat)
    | Complete
    | Close
    | Fail(order: seq<Word>)

  // ---- steps ----

  function Start(): Connection {
    Connection(true, true, map[], [], [], [], map[], [], [], [], [], [], [], [])
  }

  function NewRequest(s: Service, index: Word, message: Packed, id: Word): Request {
    Request(index, IdBytes(s.bigEndian, id), message)
  }

  function ReplyTo(r: Request, outcome: Outcome): Reply {
    Reply(r.index, r.id, outcome)
  }

  // The client unpacks a reply as the output that the call under its id awaits.
  function Awaited(s: Service, waiting: map<Word, Call>): Reader<Id> {
    Reader((id: Id) => BytesId(s.bigEndian, id) in waiting,
           (id: Id, m: Packed) =>
             BytesId(s.bigEndian, id) in waiting && s.output(waiting[BytesId(s.bigEndian, id)].index, m))
  }

  function NextRequest(s: Service, c: Connection): Decoded<Request> {
    DecodeRequest(s.Requests(), c.serverIn)
  }

  function NextReply(s: Service, c: Connection): Decoded<Reply> {
    DecodeReply(Awaited(s, c.waiting), c.clientIn)
  }

  ghost predicate Lists(order: seq<Word>, waiting: map<Word, Call>) {
    && (forall i, j :: 0 <= i < j < |order| ==> order[i] != order[j])
    && (forall id :: id in order <==> id in waiting)
  }

  // A failed client may still be invoked: it calls the closure at once.
  ghost predicate Enabled(s: Service, c: Connection, e: Event) {
    match e
    case Invoke(index, message, id) =>
      s.Requests().Takes(index, message) && id != 0 && id !in c.waiting
    case SendRequests(n) => n <= |c.clientOut|
    case ReceiveRequests(n) => c.serverUp && n <= |c.toServer|
    case Serve => c.serverUp && NextRequest(s, c).Got?
    case Respond(call, outcome) =>
      && c.serverUp && call in c.pending
      && (outcome.Message? ==> s.output(c.pending[call].index, outcome.bytes))
    case SendReplies(n) => n <= |c.serverOut|
    case ReceiveReplies(n) => c.clientUp && n <= |c.toClient|
    case Complete =>
      && c.clientUp && NextReply(s, c).Got?
      && BytesId(s.bigEndian, NextReply(s, c).frame.id) in c.waiting
    case Close => c.serverUp
    case Fail(order) => c.clientUp && Lists(order, c.waiting)
  }

  function After(s: Service, c: Connection, e: Event): Connection
    requires Enabled(s, c, e)
  {
    match e
    case Invoke(index, message, id) =>
      var r := NewRequest(s, index, message, id);
      if c.clientUp then
        c.(waiting := c.waiting[id := Call(|c.issued|, index)], issued := c.issued + [r],
           clientOut := c.clientOut + EncodeRequest(r))
      else
        c.(issued := c.issued + [r], done := c.done + [Done(|c.issued|, NoMessage)])
    case SendRequests(n) => c.(clientOut := c.clientOut[n..], toServer := c.toServer + c.clientOut[..n])
    case ReceiveRequests(n) => c.(toServer := c.toServer[n..], serverIn := c.serverIn + c.toServer[..n])
    case Serve =>
      var d := NextRequest(s, c);
      c.(serverIn := d.rest, pending := c.pending[|c.served| := d.frame], served := c.served + [d.frame])
    case Respond(call, outcome) =>
      var reply := ReplyTo(c.pending[call], outcome);
      c.(pending := c.pending - {call}, answers := c.answers + [Answer(call, reply)],
         serverOut := c.serverOut + EncodeReply(reply))
    case SendReplies(n) => c.(serverOut := c.serverOut[n..], toClient := c.toClient + c.serverOut[..n])
    case ReceiveReplies(n) => c.(toClient := c.toClient[n..], clientIn := c.clientIn + c.toClient[..n])
    case Complete =>
      var d := NextReply(s, c);
      var id := BytesId(s.bigEndian, d.frame.id);
      c.(clientIn := d.rest, waiting := c.waiting - {id},
         done := c.done + [Done(c.waiting[id].number, d.frame.outcome)])
    case Close => c.(serverUp := false, serverIn := [], serverOut := [])
    case Fail(order) =>
      c.(clientUp := false, clientOut := [], clientIn := [], waiting := map[],
         done := c.done + Abandoned(c.waiting, order))
  }

  // The completions of client_failed.
  function Abandoned(waiting: map<Word, Call>, order: seq<Word>): (d: seq<Done>)
    requires forall id :: id in order ==> id in waiting
    ensures |d| == |order| && forall i :: 0 <= i < |d| ==> d[i] == Done(waiting[order[i]].number, NoMessage)
  {
    seq(|order|, i requires 0 <= i < |order| => Done(waiting[order[i]].number, NoMessage))
  }

  // ---- the bytes on the way ----

  function RequestBytes(rs: seq<Request>): seq<Byte> {
    if rs == [] then [] else EncodeRequest(rs[0]) + RequestBytes(rs[1..])
  }

  function ReplyBytes(rs: seq<Answer>): seq<Byte> {
    if rs == [] then [] else EncodeReply(rs[0].reply) + ReplyBytes(rs[1..])
  }

  lemma Associates(a: seq<Byte>, b: seq<Byte>, c: seq<Byte>)
    ensures a + (b + c) == a + b + c
  {
  }

  lemma {:induction false} RequestBytesMore(rs: seq<Request>, r: Request)
    ensures RequestBytes(rs + [r]) == RequestBytes(rs) + EncodeRequest(r)
  {
    if rs == [] {
      assert rs + [r] == [r];
      assert [r][1..] == [];
    } else {
      RequestBytesMore(rs[1..], r);
      hide EncodeRequest;
      assert (rs + [r])[1..] == rs[1..] + [r];
      Associates(EncodeRequest(rs[0]), RequestBytes(rs[1..]), EncodeRequest(r));
    }
  }

  lemma {:induction false} ReplyBytesMore(rs: seq<Answer>, a: Answer)
    ensures ReplyBytes(rs + [a]) == ReplyBytes(rs) + EncodeReply(a.reply)
  {
    if rs == [] {
      assert rs + [a] == [a];
      assert [a][1..] == [];
    } else {
      ReplyBytesMore(rs[1..], a);
      hide EncodeReply;
      assert (rs + [a])[1..] == rs[1..] + [a];
      Associates(EncodeReply(rs[0].reply), ReplyBytes(rs[1..]), EncodeReply(a.reply));
    }
  }

  lemma Earliest(a: seq<Byte>, b: seq<Byte>, end: seq<Byte>, all: seq<Byte>)
    requires a + (b + end) == all
    ensures a + b <= all && (end == [] ==> a + b == all)
  {
    assert a + b + end == all;
  }

  // What can be decoded from the first bytes of a stream of requests is its first request.
  lemma FirstRequest(s: Service, rs: seq<Request>, got: seq<Byte>, later: seq<Byte>)
    requires forall r :: r in rs ==> s.Requests().Takes(r.index, r.message)
    requires got + later <= RequestBytes(rs)
    ensures DecodeRequest(s.Requests(), got).Incomplete? || DecodeRequest(s.Requests(), got).Got?
    ensures DecodeRequest(s.Requests(), got).Got? ==>
              var d := DecodeRequest(s.Requests(), got);
              && rs != [] && d.frame == rs[0]
              && d.rest + later <= RequestBytes(rs[1..])
              && (got + later == RequestBytes(rs) ==> d.rest + later == RequestBytes(rs[1..]))
  {
    hide DecodeRequest, EncodeRequest;
    if DecodeRequest(s.Requests(), got) != Incomplete {
      RequestSteady(s.Requests(), got, []);
      var end := RequestBytes(rs)[|got + later|..];
      var more := later + end;
      assert got + more == RequestBytes(rs);
      RequestSteady(s.Requests(), got, more);
      RequestRoundTrip(s.Requests(), rs[0], RequestBytes(rs[1..]));
      var d := DecodeRequest(s.Requests(), got);
      Earliest(d.rest, later, end, RequestBytes(rs[1..]));
    }
  }

  lemma FirstReply(reader: Reader<Id>, rs: seq<Answer>, got: seq<Byte>, later: seq<Byte>)
    requires rs != [] && rs[0].reply.outcome.Message? ==> reader.Takes(rs[0].reply.id, rs[0].reply.outcome.bytes)
    requires got + later <= ReplyBytes(rs)
    ensures DecodeReply(reader, got).Incomplete? || DecodeReply(reader, got).Got?
    ensures DecodeReply(reader, got).Got? ==>
              var d := DecodeReply(reader, got);
              && rs != [] && d.frame == rs[0].reply
              && d.rest + later <= ReplyBytes(rs[1..])
              && (got + later == ReplyBytes(rs) ==> d.rest + later == ReplyBytes(rs[1..]))
  {
    hide DecodeReply, EncodeReply;
    if DecodeReply(reader, got) != Incomplete {
      ReplySteady(reader, got, []);
      var end := ReplyBytes(rs)[|got + later|..];
      var more := later + end;
      assert got + more == ReplyBytes(rs);
      ReplySteady(reader, got, more);
      ReplyRoundTrip(reader, rs[0].reply, ReplyBytes(rs[1..]));
      var d := DecodeReply(reader, got);
      Earliest(d.rest, later, end, ReplyBytes(rs[1..]));
    }
  }

  // ---- what every step keeps ----

  function DoneCalls(d: seq<Done>): (r: seq<nat>)
    ensures |r| == |d| && forall i :: 0 <= i < |r| ==> r[i] == d[i].call
  {
    seq(|d|, i requires 0 <= i < |d| => d[i].call)
  }

  function AnsweredCalls(a: seq<Answer>): (r: seq<nat>)
    ensures |r| == |a| && forall i :: 0 <= i < |r| ==> r[i] == a[i].call
  {
    seq(|a|, i requires 0 <= i < |a| => a[i].call)
  }

  ghost predicate Distinct(s: seq<nat>) {
    forall i, j :: 0 <= i < j < |s| ==> s[i] != s[j]
  }

  // Requests reach the server whole, once, and in the order in which they were issued.
  ghost predicate RequestStream(s: Service, c: Connection) {
    RequestsMove(s, c.serverUp, c.clientUp, c.issued, c.served, c.serverIn + c.toServer + c.clientOut)
  }

  ghost predicate RequestsMove(s: Service, serverUp: bool, clientUp: bool, issued: seq<Request>, served: seq<Request>,
                               b: seq<Byte>) {
    && (forall r :: r in issued ==> s.Requests().Takes(r.index, r.message))
    && served <= issued
    && (serverUp ==> b <= RequestBytes(issued[|served|..]))
    && (serverUp && clientUp ==> b == RequestBytes(issued[|served|..]))
  }

  // Every request that the server decoded is either pending or has been answered once, with its own id.
  ghost predicate Answering(s: Service, pending: map<nat, Request>, served: seq<Request>, answers: seq<Answer>) {
    && (forall k: nat :: k in pending <==> k < |served| && k !in AnsweredCalls(answers))
    && (forall k :: k in pending ==> pending[k] == served[k])
    && Distinct(AnsweredCalls(answers))
    && (forall a :: a in answers ==> a.call < |served| && RightReply(s, served[a.call], a.reply))
  }

  ghost predicate RightReply(s: Service, r: Request, reply: Reply) {
    && reply == ReplyTo(r, reply.outcome)
    && (reply.outcome.Message? ==> s.output(r.index, reply.outcome.bytes))
  }

  // Replies reach the client whole, once, and in the order in which they were given.
  ghost predicate ReplyStream(c: Connection) {
    RepliesMove(c.serverUp, c.answers, |c.done|, c.clientIn + c.toClient + c.serverOut)
  }

  ghost predicate RepliesMove(serverUp: bool, answers: seq<Answer>, done: nat, b: seq<Byte>) {
    && done <= |answers|
    && b <= ReplyBytes(answers[done..])
    && (serverUp ==> b == ReplyBytes(answers[done..]))
  }

  // The closures called so far were called with the answers.
  ghost predicate Delivered(done: seq<Done>, answers: seq<Answer>) {
    && |done| <= |answers|
    && (forall i :: 0 <= i < |done| ==> done[i] == Done(answers[i].call, answers[i].reply.outcome))
  }

  // The ids in use belong to the calls that are not done.
  ghost predicate Waiting(s: Service, waiting: map<Word, Call>, issued: seq<Request>, done: seq<nat>) {
    && (forall id :: id in waiting ==> WaitsFor(s, waiting, issued, done, id))
    && (forall n: nat :: n < |issued| && n !in done ==> HasId(s, waiting, BytesId(s.bigEndian, issued[n].id), n))
  }

  ghost predicate WaitsFor(s: Service, waiting: map<Word, Call>, issued: seq<Request>, done: seq<nat>, id: Word)
    requires id in waiting
  {
    var n := waiting[id].number;
    n < |issued| && n !in done && issued[n].id == IdBytes(s.bigEndian, id) && issued[n].index == waiting[id].index
  }

  ghost predicate HasId(s: Service, waiting: map<Word, Call>, id: Word, n: nat) {
    id in waiting && waiting[id].number == n
  }

  // No closure is called twice, and one that gets a message gets the server's answer to its own request.
  ghost predicate DoneOnce(issued: nat, done: seq<Done>, answers: seq<Answer>) {
    && Distinct(DoneCalls(done))
    && (forall d :: d in done ==> d.call < issued)
    && (forall d :: d in done && d.outcome.Message? ==> Genuine(answers, d))
  }

  ghost predicate Genuine(answers: seq<Answer>, d: Done) {
    exists a :: a in answers && a.call == d.call && a.reply.outcome == d.outcome
  }

  // After a failure nothing waits and every call is done.
  ghost predicate Settled(waiting: map<Word, Call>, issued: nat, done: seq<nat>) {
    waiting == map[] && forall n: nat :: n < issued ==> n in done
  }

  ghost predicate Inv(s: Service, c: Connection) {
    && RequestStream(s, c)
    && Answering(s, c.pending, c.served, c.answers)
    && DoneOnce(|c.issued|, c.done, c.answers)
    && (c.clientUp ==>
         ReplyStream(c) && Delivered(c.done, c.answers) && Waiting(s, c.waiting, c.issued, DoneCalls(c.done)))
    && (!c.clientUp ==> Settled(c.waiting, |c.issued|, DoneCalls(c.done)))
  }

  // ---- requests ----

  lemma RequestIssued(s: Service, serverUp: bool, clientUp: bool, issued: seq<Request>, served: seq<Request>,
                      b: seq<Byte>, r: Request)
    requires RequestsMove(s, serverUp, clientUp, issued, served, b) && s.Requests().Takes(r.index, r.message)
    ensures RequestsMove(s, serverUp, clientUp, issued + [r], served, if clientUp then b + EncodeRequest(r) else b)
  {
    hide EncodeRequest, RequestBytes;
    RequestBytesMore(issued[|served|..], r);
    assert (issued + [r])[|served|..] == issued[|served|..] + [r];
  }

  lemma InvokeKeeps(s: Service, c: Connection, index: Word, message: Packed, id: Word)
    requires Inv(s, c) && Enabled(s, c, Invoke(index, message, id))
    ensures Inv(s, After(s, c, Invoke(index, message, id)))
  {
    hide RequestsMove, EncodeRequest, IdBytes, BytesId, Answering, RepliesMove, Delivered, Waiting, Genuine;
    var d := After(s, c, Invoke(index, message, id));
    var r := NewRequest(s, index, message, id);
    RequestIssued(s, c.serverUp, c.clientUp, c.issued, c.served, c.serverIn + c.toServer + c.clientOut, r);
    if c.clientUp {
      assert d.serverIn + d.toServer + d.clientOut == c.serverIn + c.toServer + c.clientOut + EncodeRequest(r);
      InvokedWaits(s, c.waiting, c.issued, DoneCalls(c.done), index, message, id);
    } else {
      assert DoneCalls(d.done) == DoneCalls(c.done) + [|c.issued|];
    }
  }

  lemma InvokedWaits(s: Service, waiting: map<Word, Call>, issued: seq<Request>, done: seq<nat>, index: Word,
                     message: Packed, id: Word)
    requires Waiting(s, waiting, issued, done) && id !in waiting
    requires forall n :: n in done ==> n < |issued|
    ensures Waiting(s, waiting[id := Call(|issued|, index)], issued + [NewRequest(s, index, message, id)], done)
  {
    hide IdBytes, BytesId;
    var now, more := waiting[id := Call(|issued|, index)], issued + [NewRequest(s, index, message, id)];
    forall k | k in now
      ensures WaitsFor(s, now, more, done, k)
    {
      if k != id { assert WaitsFor(s, waiting, issued, done, k); }
    }
    forall n: nat | n < |more| && n !in done
      ensures HasId(s, now, BytesId(s.bigEndian, more[n].id), n)
    {
      if n < |issued| {
        assert HasId(s, waiting, BytesId(s.bigEndian, issued[n].id), n);
      } else {
        IdRoundTrip(s.bigEndian, id);
      }
    }
  }

  lemma RequestServed(s: Service, clientUp: bool, issued: seq<Request>, served: seq<Request>, b: seq<Byte>,
                      rest: seq<Byte>, pending: map<nat, Request>, answers: seq<Answer>)
    requires RequestsMove(s, true, clientUp, issued, served, b) && |served| < |issued|
    requires Answering(s, pending, served, answers)
    requires rest <= RequestBytes(issued[|served|..][1..])
    requires clientUp ==> rest == RequestBytes(issued[|served|..][1..])
    ensures RequestsMove(s, true, clientUp, issued, served + [issued[|served|]], rest)
    ensures Answering(s, pending[|served| := issued[|served|]], served + [issued[|served|]], answers)
  {
    hide RequestBytes, RightReply;
    var now := served + [issued[|served|]];
    assert issued[|served|..][1..] == issued[|now|..];
    forall a | a in answers
      ensures a.call < |now| && RightReply(s, now[a.call], a.reply)
    {
      assert now[a.call] == served[a.call];
    }
    var calls := AnsweredCalls(answers);
    forall i | 0 <= i < |calls|
      ensures calls[i] < |served|
    {
      assert answers[i] in answers;
    }
  }

  lemma ServeKeeps(s: Service, c: Connection)
    requires Inv(s, c) && Enabled(s, c, Serve)
    ensures Inv(s, After(s, c, Serve))
  {
    hide DoneOnce, RepliesMove, Delivered, Waiting, Settled, DecodeRequest, RequestBytes, RequestsMove, Answering;
    var d := After(s, c, Serve);
    var b := c.serverIn + c.toServer + c.clientOut;
    NextRequestIsRight(s, c);
    var rest := NextRequest(s, c).rest + (c.toServer + c.clientOut);
    assert d.serverIn + d.toServer + d.clientOut == rest;
    RequestServed(s, c.clientUp, c.issued, c.served, b, rest, c.pending, c.answers);
  }

  // What the server decodes next is the next request that was issued.
  lemma NextRequestIsRight(s: Service, c: Connection)
    requires c.serverUp && RequestStream(s, c)
    ensures NextRequest(s, c).Incomplete? || NextRequest(s, c).Got?
    ensures NextRequest(s, c).Got? ==>
              var d := NextRequest(s, c);
              && |c.served| < |c.issued| && d.frame == c.issued[|c.served|]
              && d.rest + (c.toServer + c.clientOut) <= RequestBytes(c.issued[|c.served|..][1..])
              && (c.clientUp ==> d.rest + (c.toServer + c.clientOut) == RequestBytes(c.issued[|c.served|..][1..]))
  {
    hide RequestBytes, DecodeRequest;
    assert c.serverIn + (c.toServer + c.clientOut) == c.serverIn + c.toServer + c.clientOut;
    FirstRequest(s, c.issued[|c.served|..], c.serverIn, c.toServer + c.clientOut);
  }

  // ---- answers ----

  lemma AnswerGiven(s: Service, pending: map<nat, Request>, served: seq<Request>, answers: seq<Answer>, a: Answer)
    requires Answering(s, pending, served, answers) && a.call in pending && RightReply(s, pending[a.call], a.reply)
    ensures Answering(s, pending - {a.call}, served, answers + [a])
  {
    hide RightReply;
    assert AnsweredCalls(answers + [a]) == AnsweredCalls(answers) + [a.call];
  }

  lemma ReplyGiven(serverUp: bool, answers: seq<Answer>, done: nat, b: seq<Byte>, a: Answer)
    requires serverUp && RepliesMove(serverUp, answers, done, b)
    ensures RepliesMove(serverUp, answers + [a], done, b + EncodeReply(a.reply))
  {
    hide ReplyBytes, EncodeReply;
    ReplyBytesMore(answers[done..], a);
    assert (answers + [a])[done..] == answers[done..] + [a];
  }

  lemma StillGenuine(issued: nat, done: seq<Done>, answers: seq<Answer>, a: Answer)
    requires DoneOnce(issued, done, answers)
    ensures DoneOnce(issued, done, answers + [a])
  {
    forall d | d in done && d.outcome.Message?
      ensures Genuine(answers + [a], d)
    {
      assert Genuine(answers, d);
      var b :| b in answers && b.call == d.call && b.reply.outcome == d.outcome;
      assert b in answers + [a];
    }
  }

  lemma RespondKeeps(s: Service, c: Connection, call: nat, outcome: Outcome)
    requires Inv(s, c) && Enabled(s, c, Respond(call, outcome))
    ensures Inv(s, After(s, c, Respond(call, outcome)))
  {
    hide EncodeReply, RequestsMove, Waiting, Settled, RepliesMove, DoneOnce, Answering;
    var d := After(s, c, Respond(call, outcome));
    var a := Answer(call, ReplyTo(c.pending[call], outcome));
    AnswerGiven(s, c.pending, c.served, c.answers, a);
    StillGenuine(|c.issued|, c.done, c.answers, a);
    if c.clientUp {
      ReplyGiven(c.serverUp, c.answers, |c.done|, c.clientIn + c.toClient + c.serverOut, a);
      assert d.clientIn + d.toClient + d.serverOut == c.clientIn + c.toClient + c.serverOut + EncodeReply(a.reply);
    }
  }

  // What the client decodes next is the next answer, and it comes under the id of the call that it answers.
  lemma NextReplyIsRight(s: Service, c: Connection)
    requires c.clientUp && Inv(s, c)
    ensures NextReply(s, c).Incomplete? || NextReply(s, c).Got?
    ensures NextReply(s, c).Got? ==>
              var d := NextReply(s, c);
              && |c.done| < |c.answers| && d.frame == c.answers[|c.done|].reply
              && HasId(s, c.waiting, BytesId(s.bigEndian, d.frame.id), c.answers[|c.done|].call)
              && RepliesMove(c.serverUp, c.answers, |c.done| + 1, d.rest + (c.toClient + c.serverOut))
  {
    hide ReplyBytes, DecodeReply, BytesId, RequestStream, Answering, DoneOnce, Waiting;
    var rest := c.answers[|c.done|..];
    assert c.clientIn + (c.toClient + c.serverOut) == c.clientIn + c.toClient + c.serverOut;
    if rest != [] { NextAnswerWaits(s, c); }
    FirstReply(Awaited(s, c.waiting), rest, c.clientIn, c.toClient + c.serverOut);
    if |c.done| < |c.answers| { assert rest[1..] == c.answers[|c.done| + 1..]; }
  }

  lemma NextAnswerWaits(s: Service, c: Connection)
    requires c.clientUp && Inv(s, c) && |c.done| < |c.answers|
    ensures var a := c.answers[|c.done|];
            && a.call < |c.issued| && a.call !in DoneCalls(c.done)
            && HasId(s, c.waiting, BytesId(s.bigEndian, a.reply.id), a.call)
            && (a.reply.outcome.Message? ==> Awaited(s, c.waiting).Takes(a.reply.id, a.reply.outcome.bytes))
  {
    hide RequestBytes, ReplyBytes, IdBytes, BytesId, DoneOnce, ReplyStream;
    var a := c.answers[|c.done|];
    assert a in c.answers && RightReply(s, c.served[a.call], a.reply);
    assert c.served[a.call] == c.issued[a.call];
    forall i | 0 <= i < |c.done|
      ensures DoneCalls(c.done)[i] != a.call
    {
      assert AnsweredCalls(c.answers)[i] != AnsweredCalls(c.answers)[|c.done|];
    }
    var id := BytesId(s.bigEndian, a.reply.id);
    assert HasId(s, c.waiting, id, a.call);
    assert WaitsFor(s, c.waiting, c.issued, DoneCalls(c.done), id);
  }

  lemma AnswerDelivered(issued: nat, done: seq<Done>, answers: seq<Answer>)
    requires Delivered(done, answers) && DoneOnce(issued, done, answers) && |done| < |answers|
    requires var a := answers[|done|]; a.call < issued && a.call !in DoneCalls(done)
    ensures var a := answers[|done|];
            var now := done + [Done(a.call, a.reply.outcome)];
            && Delivered(now, answers) && DoneOnce(issued, now, answers)
            && DoneCalls(now) == DoneCalls(done) + [a.call]
  {
    var a := answers[|done|];
    var d := Done(a.call, a.reply.outcome);
    assert DoneCalls(done + [d]) == DoneCalls(done) + [a.call];
    assert a in answers;
    assert Genuine(answers, d);
  }

  lemma CompleteKeeps(s: Service, c: Connection)
    requires Inv(s, c) && Enabled(s, c, Complete)
    ensures Inv(s, After(s, c, Complete))
  {
    hide DecodeReply, BytesId, IdBytes, RepliesMove, RequestsMove, Answering, Waiting, Delivered, DoneOnce;
    var d := After(s, c, Complete);
    NextReplyIsRight(s, c);
    var a := c.answers[|c.done|];
    NextAnswerWaits(s, c);
    assert d.clientIn + d.toClient + d.serverOut == NextReply(s, c).rest + (c.toClient + c.serverOut);
    AnswerDelivered(|c.issued|, c.done, c.answers);
    CompletedWaits(s, c.waiting, c.issued, DoneCalls(c.done), BytesId(s.bigEndian, NextReply(s, c).frame.id));
  }

  lemma CompletedWaits(s: Service, waiting: map<Word, Call>, issued: seq<Request>, done: seq<nat>, id: Word)
    requires Waiting(s, waiting, issued, done) && id in waiting
    ensures Waiting(s, waiting - {id}, issued, done + [waiting[id].number])
  {
    hide IdBytes, BytesId;
    var now, more := waiting - {id}, done + [waiting[id].number];
    assert WaitsFor(s, waiting, issued, done, id);
    forall k | k in now
      ensures WaitsFor(s, now, issued, more, k)
    {
      assert WaitsFor(s, waiting, issued, done, k);
      if waiting[k].number == waiting[id].number {
        IdRoundTrip(s.bigEndian, k);
        IdRoundTrip(s.bigEndian, id);
      }
    }
    forall n: nat | n < |issued| && n !in more
      ensures HasId(s, now, BytesId(s.bigEndian, issued[n].id), n)
    {
      assert HasId(s, waiting, BytesId(s.bigEndian, issued[n].id), n);
    }
  }

  // ---- failure ----

  lemma FailKeeps(s: Service, c: Connection, order: seq<Word>)
    requires Inv(s, c) && Enabled(s, c, Fail(order))
    ensures Inv(s, After(s, c, Fail(order)))
  {
    hide RequestBytes, ReplyStream, Answering, BytesId, IdBytes, DoneOnce, Delivered, Waiting;
    var d := After(s, c, Fail(order));
    assert d.serverIn + d.toServer + d.clientOut + c.clientOut == c.serverIn + c.toServer + c.clientOut;
    AbandonedOnce(s, c, order);
    forall n: nat | n < |c.issued|
      ensures n in DoneCalls(d.done)
    {
      AbandonedAll(s, c, order, n);
    }
  }

  lemma AbandonedOnce(s: Service, c: Connection, order: seq<Word>)
    requires Waiting(s, c.waiting, c.issued, DoneCalls(c.done)) && Lists(order, c.waiting)
    requires DoneOnce(|c.issued|, c.done, c.answers)
    ensures DoneOnce(|c.issued|, c.done + Abandoned(c.waiting, order), c.answers)
  {
    hide BytesId, IdBytes, Genuine, Waiting;
    var was, more := DoneCalls(c.done), Abandoned(c.waiting, order);
    var all := DoneCalls(c.done + more);
    forall i, j | 0 <= i < j < |all|
      ensures all[i] != all[j]
    {
      if i < |was| {
        assert all[i] == was[i];
        if j < |was| { assert all[j] == was[j]; } else { AbandonedCall(s, c, order, j - |was|); }
      } else {
        AbandonedApart(s, c, order, i - |was|, j - |was|);
      }
    }
    forall d | d in more
      ensures d.call < |c.issued| && !d.outcome.Message?
    {
      var i :| 0 <= i < |more| && more[i] == d;
      AbandonedCall(s, c, order, i);
    }
  }

  lemma AbandonedApart(s: Service, c: Connection, order: seq<Word>, i: nat, j: nat)
    requires Waiting(s, c.waiting, c.issued, DoneCalls(c.done)) && Lists(order, c.waiting) && i < j < |order|
    ensures Abandoned(c.waiting, order)[i].call != Abandoned(c.waiting, order)[j].call
  {
    hide BytesId, IdBytes, Waiting;
    AbandonedCall(s, c, order, i);
    AbandonedCall(s, c, order, j);
    IdRoundTrip(s.bigEndian, order[i]);
    IdRoundTrip(s.bigEndian, order[j]);
  }

  lemma AbandonedAll(s: Service, c: Connection, order: seq<Word>, n: nat)
    requires Waiting(s, c.waiting, c.issued, DoneCalls(c.done)) && Lists(order, c.waiting) && n < |c.issued|
    ensures n in DoneCalls(c.done + Abandoned(c.waiting, order))
  {
    hide BytesId, IdBytes;
    var was := DoneCalls(c.done);
    var all := DoneCalls(c.done + Abandoned(c.waiting, order));
    if n in was {
      var i :| 0 <= i < |was| && was[i] == n;
      assert all[i] == n;
    } else {
      var id := BytesId(s.bigEndian, c.issued[n].id);
      assert HasId(s, c.waiting, id, n);
      var i :| 0 <= i < |order| && order[i] == id;
      assert all[|was| + i] == n;
    }
  }

  lemma AbandonedCall(s: Service, c: Connection, order: seq<Word>, i: nat)
    requires Waiting(s, c.waiting, c.issued, DoneCalls(c.done)) && Lists(order, c.waiting) && i < |order|
    ensures order[i] in c.waiting
    ensures var n := c.waiting[order[i]].number;
            && Abandoned(c.waiting, order)[i] == Done(n, NoMessage)
            && n < |c.issued| && n !in DoneCalls(c.done) && c.issued[n].id == IdBytes(s.bigEndian, order[i])
  {
    assert WaitsFor(s, c.waiting, c.issued, DoneCalls(c.done), order[i]);
  }

  // ---- runs ----

  lemma Kept(s: Service, c: Connection, e: Event)
    requires Inv(s, c) && Enabled(s, c, e)
    ensures Inv(s, After(s, c, e))
  {
    match e
    case Invoke(index, message, id) => InvokeKeeps(s, c, index, message, id);
    case Serve => ServeKeeps(s, c);
    case Respond(call, outcome) => RespondKeeps(s, c, call, outcome);
    case Complete => CompleteKeeps(s, c);
    case Fail(order) => FailKeeps(s, c, order);
    case _ => BytesMove(s, c, e);
  }

  lemma SameBytes(s: Service, c: Connection, e: Event)
    requires e.SendRequests? || e.ReceiveRequests? || e.SendReplies? || e.ReceiveReplies?
    requires Enabled(s, c, e)
    ensures var d := After(s, c, e);
            && d.serverIn + d.toServer + d.clientOut == c.serverIn + c.toServer + c.clientOut
            && d.clientIn + d.toClient + d.serverOut == c.clientIn + c.toClient + c.serverOut
  {
  }

  lemma BytesMove(s: Service, c: Connection, e: Event)
    requires e.SendRequests? || e.ReceiveRequests? || e.SendReplies? || e.ReceiveReplies? || e.Close?
    requires Inv(s, c) && Enabled(s, c, e)
    ensures Inv(s, After(s, c, e))
  {
    hide Answering, DoneOnce, Delivered, Waiting, Settled, RequestBytes, ReplyBytes;
    if e.Close? {
      var d := After(s, c, e);
      assert d.clientIn + d.toClient + d.serverOut + c.serverOut == c.clientIn + c.toClient + c.serverOut;
    } else {
      SameBytes(s, c, e);
    }
  }

  lemma StartsWell(s: Service)
    ensures Inv(s, Start())
  {
  }

  // The events lead from one state to the other.
  ghost predicate Leads(s: Service, c: Connection, events: seq<Event>, d: Connection)
    decreases |events|
  {
    if events == [] then c == d
    else Enabled(s, c, events[0]) && Leads(s, After(s, c, events[0]), events[1..], d)
  }

  lemma {:induction false} LeadsOn(s: Service, c: Connection, events: seq<Event>, d: Connection, e: Event)
    requires Leads(s, c, events, d) && Enabled(s, d, e)
    ensures Leads(s, c, events + [e], After(s, d, e))
    decreases |events|
  {
    hide Enabled;
    if events == [] {
      assert [e][1..] == [];
    } else {
      LeadsOn(s, After(s, c, events[0]), events[1..], d, e);
      assert (events + [e])[1..] == events[1..] + [e];
    }
  }

  lemma {:induction false} LeadsWell(s: Service, c: Connection, events: seq<Event>, d: Connection)
    requires Inv(s, c) && Leads(s, c, events, d)
    ensures Inv(s, d)
    decreases |events|
  {
    hide Inv, Enabled;
    if events != [] {
      Kept(s, c, events[0]);
      LeadsWell(s, After(s, c, events[0]), events[1..], d);
    }
  }
}
