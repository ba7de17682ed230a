/**
 * The server's side of a connection as an object: the list of pending requests and the two data buffers.  Each of its
 * methods does what the transition system allows, whatever the rest of the connection looks like.
 */
module RpcServer {
  import opened Bytes
  import opened DataBuffer
  import opened Framing
  import opened RpcConnection
  import opened RpcStreams

  // A request as the server keeps it: which one it is, and what a reply needs of it.
  datatype ServerRequest = ServerRequest(call: nat, id: Id, index: Word)

  ghost predicate Listed(list: seq<ServerRequest>, call: nat) {
    exists r :: r in list && r.call == call
  }

  ghost predicate Once(list: seq<ServerRequest>) {
    forall i, j :: 0 <= i < j < |list| ==> list[i].call != list[j].call
  }

  // The list holds the pending requests, each once.
  ghost predicate Pending(list: seq<ServerRequest>, pending: map<nat, Request>) {
    && Once(list)
    && (forall k: nat :: k in pending <==> Listed(list, k))
    && (forall r :: r in list ==> r.call in pending && pending[r.call].id == r.id && pending[r.call].index == r.index)
  }

  // GSK_LIST_APPEND
  lemma PendingMore(list: seq<ServerRequest>, pending: map<nat, Request>, call: nat, r: Request)
    requires Pending(list, pending) && call !in pending
    ensures Pending(list + [ServerRequest(call, r.id, r.index)], pending[call := r])
  {
    var last := ServerRequest(call, r.id, r.index);
    var now := list + [last];
    assert forall x :: x in now <==> x in list || x == last;
    forall k: nat
      ensures k in pending[call := r] <==> Listed(now, k)
    {
      if Listed(list, k) { var x :| x in list && x.call == k; assert x in now; }
      if k == call { assert last in now; }
    }
    assert Once(now) by {
      forall i | 0 <= i < |list| ensures list[i].call != call { assert list[i] in list; }
    }
  }

  // What is left of a list without repeats when one element is taken out.
  lemma TakenOut(list: seq<ServerRequest>, at: nat, x: ServerRequest)
    requires Once(list) && at < |list|
    ensures x in list[..at] + list[at + 1..] <==> x in list && x.call != list[at].call
  {
    if x in list {
      var i :| 0 <= i < |list| && list[i] == x;
      if i < at { assert list[..at][i] == x; }
      if i > at { assert list[at + 1..][i - at - 1] == x; }
    }
  }

  // GSK_LIST_REMOVE
  lemma PendingLess(list: seq<ServerRequest>, pending: map<nat, Request>, at: nat)
    requires Pending(list, pending) && at < |list|
    ensures Pending(list[..at] + list[at + 1..], pending - {list[at].call})
  {
    var now := list[..at] + list[at + 1..];
    forall x ensures x in now <==> x in list && x.call != list[at].call { TakenOut(list, at, x); }
    forall k: nat
      ensures k in pending - {list[at].call} <==> Listed(now, k)
    {
      if Listed(list, k) && k != list[at].call { var x :| x in list && x.call == k; assert x in now; }
    }
    OnceLess(list, at);
  }

  lemma PendingAt(list: seq<ServerRequest>, pending: map<nat, Request>, at: nat)
    requires Pending(list, pending) && at < |list|
    ensures var r := list[at]; r.call in pending && pending[r.call].id == r.id && pending[r.call].index == r.index
  {
    assert list[at] in list;
  }

  lemma OnceLess(list: seq<ServerRequest>, at: nat)
    requires Once(list) && at < |list|
    ensures Once(list[..at] + list[at + 1..])
  {
  }

  // Any list without repeats is the list of some pending requests.
  lemma {:induction false} SomePending(list: seq<ServerRequest>) returns (pending: map<nat, Request>, bound: nat)
    requires Once(list)
    ensures Pending(list, pending) && forall k: nat :: k in pending ==> k < bound
  {
    pending, bound := map[], 0;
    if list != [] {
      var last := |list| - 1;
      var r := list[last];
      pending, bound := SomePending(list[..last]);
      assert !Listed(list[..last], r.call);
      PendingMore(list[..last], pending, r.call, Request(r.index, r.id, []));
      assert list[..last] + [r] == list;
      pending := pending[r.call := Request(r.index, r.id, [])];
      bound := if r.call < bound then bound else r.call + 1;
    }
  }

  // ---- what the loop takes ----

  lemma NothingToTake(reader: Reader<Word>)
    ensures TakeAll(reader, []) == Taken([], [], Incomplete)
  {
  }

  lemma TakesOne(s: Service, c: Connection)
    ensures var d := NextRequest(s, c);
            TakeAll(s.Requests(), c.serverIn)
              == if d.Got? then Before([d.frame], TakeAll(s.Requests(), d.rest)) else Taken([], c.serverIn, d)
  {
  }

  // How often the connection is failed when this stops the loop: for an index without a method the decoder's callback
  // fails it, and the loop once more, although the first time has freed it.
  function Failures(stop: Decoded<Request>): (n: nat)
    ensures (n <= 1 <==> !stop.Unknown?) && (n == 0 <==> !stop.Unknown? && !stop.Bad?)
  {
    match stop
    case Unknown => 2
    case Bad => 1
    case _ => 0
  }

  // ---- the connection ----

  class ServerConnection {
    const service: Service
    const incoming: Buffer
    const outgoing: Buffer
    var up: bool
    var pending: seq<ServerRequest>
    var nPending: nat

    ghost predicate Valid()
      reads this, incoming, incoming.frags, outgoing, outgoing.frags
    {
      && incoming != outgoing && incoming.Valid() && outgoing.Valid() && Apart(incoming.frags, outgoing.frags)
      && nPending == |pending|
    }

    // It is the server side of this connection.
    ghost predicate Shows(c: Connection)
      reads this, incoming, outgoing
    {
      && c.serverUp == up && (up ==> Pending(pending, c.pending))
      && c.serverIn == incoming.Contents() && c.serverOut == outgoing.Contents()
    }

    // Whatever bytes arrive, they may be those of some connection.
    lemma AnyBytes(chunk: seq<Byte>) returns (c: Connection)
      requires Valid() && Once(pending)
      ensures Shows(c) && Numbered(c) && chunk <= c.toServer
    {
      hide Pending;
      var calls, bound := SomePending(pending);
      var served := seq(bound, _ => Request(0, [0, 0, 0, 0], []));
      c := Start().(serverUp := up, pending := calls, served := served, toServer := chunk,
                    serverIn := incoming.Contents(), serverOut := outgoing.Contents());
    }

    // The part of handle_server_listener_readable that sets a connection up.
    constructor (service: Service)
      ensures Valid() && this.service == service && up && Shows(Start())
      ensures fresh(incoming) && fresh(outgoing) && incoming.frags == []
    {
      this.service := service;
      incoming := new Buffer();
      outgoing := new Buffer();
      up, pending, nPending := true, [], 0;
    }

    // server_connection_close; the requests that are still pending lose their connection.
    method Shut(ghost c: Connection)
      requires Valid() && up && c.serverUp
      modifies this, incoming, outgoing
      ensures Valid() && Enabled(service, c, Event.Close) && Shows(After(service, c, Event.Close))
      ensures !up && After(service, c, Event.Close).served == c.served
    {
      up := false;
      incoming.Reset();
      outgoing.Reset();
      pending, nPending := [], 0;
    }

    // The writable part of handle_server_connection_events, when n bytes could be written.
    method Written(n: nat, ghost c: Connection)
      requires Valid() && Shows(c) && n <= |c.serverOut|
      modifies outgoing, SetOf(outgoing.frags)
      ensures Valid() && Enabled(service, c, SendReplies(n)) && Shows(After(service, c, SendReplies(n)))
    {
      hide Join, Buffer.Linked, Pending;
      Sent(n);
    }

    // The first n bytes are out.
    method Sent(n: nat)
      requires Valid() && n <= |outgoing.Contents()|
      modifies outgoing, SetOf(outgoing.frags)
      ensures Valid() && outgoing.Contents() == old(outgoing.Contents())[n..] &&
        incoming.Contents() == old(incoming.Contents())
    {
      hide Join, Chained, Different, Hold, Ends;
      outgoing.ApartLasts(incoming.frags);
      var count := outgoing.Discard(n);
      ApartStill(incoming.frags, outgoing.frags, old(SetOf(outgoing.frags)));
    }

    // server_connection_response_closure, while the connection is there: the request at place `at` is answered.
    method Respond(at: nat, outcome: Outcome, ghost c: Connection) returns (ghost e: Event)
      requires Valid() && Shows(c) && up && at < |pending|
      requires outcome.Message? ==> service.output(pending[at].index, outcome.bytes)
      modifies this`pending, this`nPending, outgoing, SetOf(outgoing.frags)
      ensures Valid() && e == Event.Respond(old(pending)[at].call, outcome)
      ensures Enabled(service, c, e) && Shows(After(service, c, e))
      ensures pending == old(pending)[..at] + old(pending)[at + 1..]
      // the reply on the wire: status, the index and id of the request, and the message
      ensures var b, r := outgoing.Contents(), old(pending)[at];
              && |b| >= |old(outgoing.Contents())| + 16 && old(outgoing.Contents()) <= b
              && IsReply(b[|old(outgoing.Contents())|..], r.index, r.id, outcome)
      ensures fresh(SetOf(outgoing.frags) - old(SetOf(outgoing.frags)))
    {
      hide Join, Chained, Different, Hold, Ends, EncodeReply, Pending;
      var r := pending[at];
      PendingAt(pending, c.pending, at);
      PendingLess(pending, c.pending, at);
      outgoing.ApartLasts(incoming.frags);
      ReplyLayout(Reply(r.index, r.id, outcome));
      ghost var was := outgoing.Contents();
      outgoing.Append(EncodeReply(Reply(r.index, r.id, outcome)));
      assert outgoing.Contents()[|was|..] == EncodeReply(Reply(r.index, r.id, outcome));
      ApartStill(incoming.frags, outgoing.frags, old(SetOf(outgoing.frags)));
      pending := pending[..at] + pending[at + 1..];
      nPending := nPending - 1;
      e := Event.Respond(r.call, outcome);
    }

    // One turn of the loop over the incoming bytes, whatever they are: a request is decoded and listed.  The server
    // numbers the requests.  The callback that looks the method up fails the connection when there is none.
    method TakeRequest(call: nat, ghost c: Connection) returns (status: Status<Request>, failures: nat)
      requires Valid() && Shows(c) && up && Numbered(c) && call == |c.served|
      modifies this, incoming, SetOf(incoming.frags), outgoing
      ensures Valid() && (up ==> SetOf(incoming.frags) <= old(SetOf(incoming.frags)))
      ensures match NextRequest(service, c)
              case Incomplete => status == INCOMPLETE_BUFFER && failures == 0 && Shows(c)
              case Unknown =>
                && status == FAILED(false) && failures == 1
                && Enabled(service, c, Event.Close) && Shows(After(service, c, Event.Close))
              case Bad => status == FAILED(true) && failures == 0 && up
              case Got(r, _) =>
                && status == SUCCESS(r) && failures == 0 && up
                && Enabled(service, c, Serve) && Shows(After(service, c, Serve))
              case Asserts => false
    {
      hide Join, Chained, Different, Hold, Ends, DecodeRequest, Pending;
      failures := 0;
      incoming.ApartLasts(outgoing.frags);
      status := ServerDeserialize(incoming, service.Requests());
      ApartStill(outgoing.frags, incoming.frags, old(SetOf(incoming.frags)));
      if status.FAILED? && !status.found {
        Shut(c);
        failures := 1;
      }
      if status.SUCCESS? {
        PendingMore(pending, c.pending, call, status.frame);
        pending := pending + [ServerRequest(call, status.frame.id, status.frame.index)];
        nPending := nPending + 1;
      }
    }

    // The same with what the loop does about it.  After a second failure nothing is said of the connection, which the
    // first one has freed.
    method Turn(call: nat, ghost c: Connection, ghost events: seq<Event>, ghost d: Connection)
      returns (status: Status<Request>, failures: nat, ghost more: seq<Event>, ghost e: Connection)
      requires Valid() && Shows(d) && up && Numbered(d) && Leads(service, c, events, d) && call == |d.served|
      modifies this, incoming, SetOf(incoming.frags), outgoing
      ensures Leads(service, c, more, e) && (Inv(service, d) ==> Inv(service, e) && failures == 0)
      ensures failures <= 1 ==> Valid() && Shows(e) && up == (failures == 0)
      ensures failures == Failures(NextRequest(service, d))
      ensures failures == 0 ==> Numbered(e) && SetOf(incoming.frags) <= old(SetOf(incoming.frags))
      ensures match status
              case INCOMPLETE_BUFFER => NextRequest(service, d) == Incomplete && e == d && more == events
              case SUCCESS(r) =>
                && NextRequest(service, d) == Got(r, e.serverIn) && failures == 0 && more == events + [Serve]
                && |e.serverIn| < |d.serverIn| && e.served == d.served + [r]
              case _ => failures > 0 && more == events + [Event.Close] && e.served == d.served
    {
      hide Join, Chained, Different, Hold, Ends, DecodeRequest, Inv, Enabled, Pending, Leads, After;
      if Inv(service, d) { NoneBad(service, d); }
      status, failures := TakeRequest(call, d);
      more, e := events, d;
      if status.FAILED? {
        failures := failures + 1;
        CloseKeeps(service, d);
        if failures == 1 { Shut(d); }
        LeadsOn(service, c, events, d, Event.Close);
        more, e := events + [Event.Close], After(service, d, Event.Close);
      } else if status.SUCCESS? {
        OneServed(service, d);
        if Inv(service, d) { Kept(service, d, Serve); }
        LeadsOn(service, c, events, d, Serve);
        more, e := events + [Serve], After(service, d, Serve);
      }
    }

    // The readable part of handle_server_connection_events: requests are taken until one is incomplete or cannot be
    // decoded.  The chunk is whatever the other side has written.
    method Readable(chunk: seq<Byte>, served: nat, ghost c: Connection)
      returns (taken: seq<Request>, failures: nat, ghost events: seq<Event>, ghost d: Connection)
      requires Valid() && Shows(c) && up && Numbered(c) && chunk <= c.toServer && served == |c.served|
      modifies this, incoming, SetOf(incoming.frags), outgoing
      // what is taken and how often the connection is failed depend on the bytes only
      ensures var t := TakeAll(service.Requests(), old(incoming.Contents()) + chunk);
              && taken == t.frames && failures == Failures(t.stop) && (failures <= 1 <==> !t.stop.Unknown?)
              && (failures == 0 ==> incoming.Contents() == t.rest)
      ensures failures <= 1 ==> Valid() && Shows(d) && up == (failures == 0)
      // up to the first failure
      ensures Leads(service, c, events, d) && d.served == c.served + taken
      ensures failures == 0 ==> NextRequest(service, d) == Incomplete
      ensures |events| == |taken| + (if failures == 0 then 1 else 2) && events[0] == ReceiveRequests(|chunk|)
      ensures forall i :: 0 < i <= |taken| ==> events[i] == Serve
      ensures failures > 0 ==> events[|events| - 1] == Event.Close
      // no request of the client is in the way
      ensures Inv(service, c) ==> failures == 0 && Inv(service, d)
      ensures failures == 0 ==> fresh(SetOf(incoming.frags) - old(SetOf(incoming.frags)))
    {
      hide Join, Chained, Different, Hold, Ends, DecodeRequest, Inv, Enabled, Pending, Leads, After, TakeAll,
        Failures, NextRequest;
      taken, failures := [], 0;
      d, events := Received(chunk, c);
      if Inv(service, c) { LeadsWell(service, c, events, d); }
      NoneBefore(TakeAll(service.Requests(), d.serverIn));
      while incoming.size > 0
        invariant Valid() && Shows(d) && up && Numbered(d) && Leads(service, c, events, d) && failures == 0
        invariant Inv(service, c) ==> Inv(service, d)
        invariant d.served == c.served + taken
        invariant TakeAll(service.Requests(), c.serverIn + chunk)
          == Before(taken, TakeAll(service.Requests(), d.serverIn))
        invariant |events| == |taken| + 1 && events[0] == ReceiveRequests(|chunk|)
        invariant forall i :: 0 < i < |events| ==> events[i] == Serve
        invariant fresh(SetOf(incoming.frags) - old(SetOf(incoming.frags)))
        decreases |d.serverIn|
      {
        TakesOne(service, d);
        var status;
        status, failures, events, d := Turn(served + |taken|, c, events, d);
        if !status.SUCCESS? {
          assert taken + [] == taken;
          return;
        }
        OneBefore(taken, status.frame, TakeAll(service.Requests(), d.serverIn));
        taken := taken + [status.frame];
      }
      NothingThere(service, d);
      NothingToTake(service.Requests());
      assert taken + [] == taken;
    }

    // The bytes that could be read are appended.
    method Received(chunk: seq<Byte>, ghost c: Connection) returns (ghost d: Connection, ghost events: seq<Event>)
      requires Valid() && Shows(c) && up && Numbered(c) && chunk <= c.toServer
      modifies incoming, SetOf(incoming.frags)
      ensures Valid() && Shows(d) && Numbered(d) && Leads(service, c, events, d)
      ensures d.served == c.served && d.serverIn == c.serverIn + chunk
      ensures events == [ReceiveRequests(|chunk|)] && fresh(SetOf(incoming.frags) - old(SetOf(incoming.frags)))
    {
      hide Join, Chained, Different, Hold, Ends, Pending;
      incoming.ApartLasts(outgoing.frags);
      incoming.Append(chunk);
      ApartStill(outgoing.frags, incoming.frags, old(SetOf(incoming.frags)));
      var e := ReceiveRequests(|chunk|);
      assert Enabled(service, c, e);
      d, events := After(service, c, e), [e];
      LeadsOn(service, c, [], c, e);
    }
  }

  // Pending requests are among those that the server has numbered.
  ghost predicate Numbered(c: Connection) {
    forall k: nat :: k in c.pending ==> k < |c.served|
  }

  lemma NoneBad(s: Service, c: Connection)
    requires Inv(s, c) && c.serverUp
    ensures NextRequest(s, c).Incomplete? || NextRequest(s, c).Got?
  {
    NextRequestIsRight(s, c);
  }

  lemma OneServed(s: Service, c: Connection)
    requires Enabled(s, c, Serve)
    ensures |After(s, c, Serve).serverIn| < |c.serverIn|
    ensures After(s, c, Serve).served == c.served + [NextRequest(s, c).frame]
    ensures After(s, c, Serve).serverIn == NextRequest(s, c).rest
    ensures Numbered(c) ==> Numbered(After(s, c, Serve))
  {
    RequestSteady(s.Requests(), c.serverIn, []);
  }

  lemma CloseKeeps(s: Service, c: Connection)
    requires c.serverUp
    ensures Enabled(s, c, Event.Close) && After(s, c, Event.Close).served == c.served
  {
  }

  lemma NothingThere(s: Service, c: Connection)
    requires c.serverIn == []
    ensures NextRequest(s, c) == Incomplete
  {
  }

  // ---- the connection is failed twice ----

  // A request of twelve bytes whose index no service has.
  function NoSuchMethod(id: Id): seq<Byte> {
    [255, 255, 255, 255, 0, 0, 0, 0] + id
  }

  lemma NotListed(s: Service, id: Id)
    ensures TakeAll(s.Requests(), NoSuchMethod(id)) == Taken([], NoSuchMethod(id), Unknown)
  {
    var b := NoSuchMethod(id);
    assert b[0..4] == [255, 255, 255, 255] && b[4..8] == [0, 0, 0, 0];
    assert BytesWord(b[0..4]) == 0xFFFF_FFFF && BytesWord(b[4..8]) == 0;
  }

  // It fails a new connection of any service twice.
  method FailsTwice(service: Service, id: Id) returns (failures: nat)
    ensures failures == 2
  {
    hide Inv, TakeAll;
    var conn := new ServerConnection(service);
    var b := NoSuchMethod(id);
    NotListed(service, id);
    assert [] + b == b;
    var taken;
    ghost var events, d;
    taken, failures, events, d := conn.Readable(b, 0, Start().(toServer := b));
  }
}
