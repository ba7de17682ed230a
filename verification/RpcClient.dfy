/**
 * The client of a connection as an object: the table of outstanding calls and the two data buffers.  Each of its
 * methods does what the transition system allows, whatever the rest of the connection looks like.
 */
module RpcClient {
  import opened Bytes
  import opened DataBuffer
  import opened Framing
  import opened RpcConnection
  import opened RpcStreams
  import ClosureTable

  // The calls of the table under their ids on the wire.
  ghost function Outstanding(calls: map<nat, Call>): map<Word, Call> {
    map id: Word | id in calls :: calls[id]
  }

  lemma OutstandingMore(calls: map<nat, Call>, id: Word, call: Call)
    ensures Outstanding(calls[id := call]) == Outstanding(calls)[id := call]
    ensures Outstanding(calls - {id}) == Outstanding(calls) - {id}
  {
  }

  // What the client unpacks a reply as, read from the closure array.
  function Unpacker(s: Service, slots: seq<ClosureTable.Slot<Call>>): Reader<Id> {
    Reader((id: Id) => ClosureTable.Holds(slots, BytesId(s.bigEndian, id)),
           (id: Id, m: Packed) =>
             var k: nat := BytesId(s.bigEndian, id);
             ClosureTable.Holds(slots, k) && s.output(slots[k - 1].call.index, m))
  }

  lemma SameDecoding(s: Service, slots: seq<ClosureTable.Slot<Call>>, b: seq<Byte>)
    ensures DecodeReply(Unpacker(s, slots), b) == DecodeReply(Awaited(s, Outstanding(ClosureTable.CallsIn(slots))), b)
  {
    hide BytesId, BytesWord;
  }

  lemma IsHeld(slots: seq<ClosureTable.Slot<Call>>, id: Word)
    ensures ClosureTable.Holds(slots, id) <==> id in ClosureTable.CallsIn(slots)
    ensures id in ClosureTable.CallsIn(slots) <==> id in Outstanding(ClosureTable.CallsIn(slots))
  {
  }

  function NoAnswers(waiting: seq<ClosureTable.Completion<Call>>): (d: seq<Done>)
    ensures |d| == |waiting| && forall i :: 0 <= i < |d| ==> d[i] == Done(waiting[i].call.number, NoMessage)
  {
    seq(|waiting|, i requires 0 <= i < |waiting| => Done(waiting[i].call.number, NoMessage))
  }

  // The ids of completions.
  ghost function Ids(done: seq<ClosureTable.Completion<Call>>): (order: seq<Word>)
    requires forall i :: 0 <= i < |done| ==> done[i].id < 0x1_0000_0000
    ensures |order| == |done| && forall i :: 0 <= i < |done| ==> order[i] == done[i].id
  {
    seq<Word>(|done|, i requires 0 <= i < |done| && done[i].id < 0x1_0000_0000 => done[i].id)
  }

  lemma IdsInTable(slots: seq<ClosureTable.Slot<Call>>, done: seq<ClosureTable.Completion<Call>>)
    requires |slots| < 0x1_0000_0000 && forall c :: c in done ==> c.id in ClosureTable.CallsIn(slots)
    ensures forall i :: 0 <= i < |done| ==> done[i].id < 0x1_0000_0000
  {
    assert forall i :: 0 <= i < |done| ==> done[i] in done;
  }

  lemma ListsAll(slots: seq<ClosureTable.Slot<Call>>, done: seq<ClosureTable.Completion<Call>>, order: seq<Word>)
    requires |order| == |done| && forall i :: 0 <= i < |done| ==> order[i] == done[i].id
    requires forall c :: c in done ==> c.id in ClosureTable.CallsIn(slots)
    requires forall j, k :: 0 <= j < k < |done| ==> done[j].id < done[k].id
    requires forall id :: id in ClosureTable.CallsIn(slots) ==> ClosureTable.Listed(done, id)
    ensures Lists(order, Outstanding(ClosureTable.CallsIn(slots)))
  {
    hide ClosureTable.CallsIn;
    var waiting := Outstanding(ClosureTable.CallsIn(slots));
    forall id | id in waiting
      ensures id in order
    {
      assert ClosureTable.Listed(done, id);
      var k :| 0 <= k < |done| && done[k].id == id;
      assert order[k] == id;
    }
  }

  // ---- what the loop takes ----

  // What the loop takes from these bytes while these calls wait.  It also stops at a reply without a message under an
  // id that does not wait: nothing has looked that id up.
  function TakeReplies(s: Service, waiting: map<Word, Call>, b: seq<Byte>): Taken<Reply>
    decreases |b|
  {
    var d := DecodeReply(Awaited(s, waiting), b);
    if d.Got? && BytesId(s.bigEndian, d.frame.id) in waiting then
      Before([d.frame], TakeReplies(s, waiting - {BytesId(s.bigEndian, d.frame.id)}, d.rest))
    else Taken([], b, d)
  }

  // How a pass of the loop ends: it waits for more bytes; it has failed the client; the decoder's callback has failed
  // the client for an id that does not wait, and the loop has failed it again, which trips an assertion; the decoder's
  // own assertion has been tripped; or a closure was to be called that is not there.
  datatype Ending = Waits | FailedOnce | FailedTwice | Asserted | NoClosure

  function EndingOf(stop: Decoded<Reply>): Ending {
    match stop
    case Incomplete => Waits
    case Bad => FailedOnce
    case Unknown => FailedTwice
    case Asserts => Asserted
    case Got(_, _) => NoClosure
  }

  // The next reply comes under an id that waits.
  predicate Comes(s: Service, c: Connection) {
    NextReply(s, c).Got? && BytesId(s.bigEndian, NextReply(s, c).frame.id) in c.waiting
  }

  lemma TakesOne(s: Service, c: Connection)
    ensures TakeReplies(s, c.waiting, c.clientIn) ==
      if Comes(s, c) then
        Before([NextReply(s, c).frame],
               TakeReplies(s, c.waiting - {BytesId(s.bigEndian, NextReply(s, c).frame.id)}, NextReply(s, c).rest))
      else Taken([], c.clientIn, NextReply(s, c))
  {
  }

  lemma OneCompleted(s: Service, c: Connection)
    requires Enabled(s, c, Complete)
    ensures Comes(s, c)
    ensures var d := After(s, c, Complete);
            && d.clientIn == NextReply(s, c).rest && |d.clientIn| < |c.clientIn|
            && d.waiting == c.waiting - {BytesId(s.bigEndian, NextReply(s, c).frame.id)}
  {
    CompleteShorter(s, c);
  }

  lemma NothingToTake(s: Service, waiting: map<Word, Call>)
    ensures TakeReplies(s, waiting, []) == Taken([], [], Incomplete)
  {
  }

  // Nothing that the server has written stops the loop.
  lemma {:induction false} NeverStops(s: Service, c: Connection)
    requires Inv(s, c) && c.clientUp
    ensures TakeReplies(s, c.waiting, c.clientIn).stop == Incomplete
    decreases |c.clientIn|
  {
    hide Inv, DecodeReply, BytesId;
    NextReplyIsRight(s, c);
    if NextReply(s, c).Got? {
      CompleteShorter(s, c);
      Kept(s, c, Complete);
      NeverStops(s, After(s, c, Complete));
    }
  }

  lemma CompleteShorter(s: Service, c: Connection)
    requires Enabled(s, c, Complete)
    ensures |After(s, c, Complete).clientIn| < |c.clientIn|
  {
    ReplySteady(Awaited(s, c.waiting), c.clientIn, []);
  }

  lemma NothingThere(s: Service, c: Connection)
    requires c.clientIn == []
    ensures NextReply(s, c) == Incomplete
  {
  }

  class Client {
    const service: Service
    const incoming: Buffer
    const outgoing: Buffer
    const table: ClosureTable.Table<Call>
    var up: bool
    // the closures that have been called, with what they were called
    var done: seq<Done>

    ghost predicate Valid()
      reads this, incoming, incoming.frags, outgoing, outgoing.frags, table, table.slots
    {
      && incoming != outgoing && incoming.Valid() && outgoing.Valid() && Apart(incoming.frags, outgoing.frags)
      && table.Valid()
    }

    // The client is the client side of this connection.
    ghost predicate Shows(c: Connection)
      reads this, incoming, outgoing, table, table.slots
    {
      && c.clientUp == up && c.done == done
      && c.clientIn == incoming.Contents() && c.clientOut == outgoing.Contents()
      && c.waiting == if up then Outstanding(table.Calls()) else map[]
    }

    // Whatever bytes arrive, they may be those of some connection.
    lemma AnyBytes(chunk: seq<Byte>) returns (c: Connection)
      requires Valid()
      ensures Shows(c) && chunk <= c.toClient
    {
      c := Start().(clientUp := up, waiting := if up then Outstanding(table.Calls()) else map[], toClient := chunk,
                    clientIn := incoming.Contents(), clientOut := outgoing.Contents(), done := done);
    }

    // set_state_connected
    constructor (service: Service)
      ensures Valid() && this.service == service && up && Shows(Start())
      ensures fresh(incoming) && fresh(outgoing) && incoming.frags == [] && fresh(table) && fresh(table.slots)
    {
      this.service := service;
      incoming := new Buffer();
      outgoing := new Buffer();
      table := new ClosureTable.Table<Call>();
      up, done := true, [];
    }

    // Appends to the outgoing bytes.
    method Send(data: seq<Byte>)
      requires Valid()
      modifies outgoing, SetOf(outgoing.frags)
      ensures Valid() && outgoing.Contents() == old(outgoing.Contents()) + data
      ensures fresh(SetOf(outgoing.frags) - old(SetOf(outgoing.frags)))
    {
      hide Join, Chained, Different, Hold, Ends, ClosureTable.Threaded;
      outgoing.ApartLasts(incoming.frags);
      outgoing.Append(data);
      ApartStill(incoming.frags, outgoing.frags, old(SetOf(outgoing.frags)));
    }

    // invoke_client_rpc: a client that has failed calls the closure at once.
    method Invoke(index: Word, message: Packed, closure: nat, ghost c: Connection)
      returns (fits: bool, ghost e: Event)
      requires Valid() && Shows(c) && service.Requests().Takes(index, message) && closure == |c.issued|
      modifies this, outgoing, SetOf(outgoing.frags), table, table.slots
      ensures Valid() && fits == (!up || old(table.free) != [] || old(table.slots.Length) < 0x8000_0000)
      ensures fits ==> e.Invoke? && e.index == index && e.message == message
      ensures fits ==> Enabled(service, c, e) && Shows(After(service, c, e))
      // the request on the wire, under the id of the call
      ensures fits && up ==>
        var before := |old(outgoing.Contents())|;
        && old(outgoing.Contents()) <= outgoing.Contents()
        && IsRequest(outgoing.Contents()[before..], index, IdBytes(service.bigEndian, e.id), message)
      ensures fresh(SetOf(outgoing.frags) - old(SetOf(outgoing.frags)))
      ensures table.slots == old(table.slots) || fresh(table.slots)
    {
      hide Buffer.Linked, Join, EncodeRequest, ClosureTable.Threaded, ClosureTable.CallsIn;
      fits, e := true, Event.Invoke(index, message, 1);
      if !up {
        done := done + [Done(closure, NoMessage)];
        return;
      }
      var id;
      fits, id := table.Allocate(Call(closure, index));
      if !fits { return; }
      OutstandingMore(old(table.Calls()), id, Call(closure, index));
      RequestLayout(NewRequest(service, index, message, id));
      ghost var was := outgoing.Contents();
      Send(EncodeRequest(NewRequest(service, index, message, id)));
      assert outgoing.Contents()[|was|..] == EncodeRequest(NewRequest(service, index, message, id));
      e := Event.Invoke(index, message, id);
    }

    // The writable part of handle_client_fd_events, when n bytes could be written.
    method Written(n: nat, ghost c: Connection)
      requires Valid() && Shows(c) && n <= |c.clientOut|
      modifies outgoing, SetOf(outgoing.frags)
      ensures Valid() && Enabled(service, c, SendRequests(n)) && Shows(After(service, c, SendRequests(n)))
    {
      hide Join, Buffer.Linked, ClosureTable.Threaded, ClosureTable.CallsIn;
      Sent(n);
    }

    // The first n bytes are out.
    method Sent(n: nat)
      requires Valid() && n <= |outgoing.Contents()|
      modifies outgoing, SetOf(outgoing.frags)
      ensures Valid() && outgoing.Contents() == old(outgoing.Contents())[n..] &&
        incoming.Contents() == old(incoming.Contents())
    {
      hide Join, Chained, Different, Hold, Ends, ClosureTable.Threaded;
      outgoing.ApartLasts(incoming.frags);
      var count := outgoing.Discard(n);
      ApartStill(incoming.frags, outgoing.frags, old(SetOf(outgoing.frags)));
    }

    // client_failed: both buffers are emptied and all closures that wait are called, in the order of their ids.
    method Fail(ghost c: Connection) returns (ghost order: seq<Word>)
      requires Valid() && up && c.clientUp && c.done == done && c.waiting == Outstanding(table.Calls())
      modifies this, incoming, outgoing
      ensures Valid() && Enabled(service, c, Event.Fail(order)) && Shows(After(service, c, Event.Fail(order))) && !up
      ensures forall i, j :: 0 <= i < j < |order| ==> order[i] < order[j]
    {
      hide Join, Chained, Different, Hold, Ends, ClosureTable.Threaded, ClosureTable.CallsIn, Lists,
        ClosureTable.Listed;
      var waiting := table.FailAll();
      IdsInTable(table.slots[..], waiting);
      order := Ids(waiting);
      ListsAll(table.slots[..], waiting, order);
      up := false;
      incoming.Reset();
      outgoing.Reset();
      CallAll(waiting);
      assert NoAnswers(waiting) == Abandoned(c.waiting, order);
    }

    // One turn of the loop over the incoming bytes, whatever they are.  The callback that looks an id up fails the
    // client when the id does not wait.
    method TakeReply(ghost c: Connection) returns (status: Status<Reply>, missing: bool, ghost order: seq<Word>)
      requires Valid() && Shows(c) && up
      modifies this, incoming, SetOf(incoming.frags), outgoing, table, table.slots
      ensures Valid() && table.slots == old(table.slots) && (up ==> SetOf(incoming.frags) <= old(SetOf(incoming.frags)))
      ensures match NextReply(service, c)
              case Incomplete => status == INCOMPLETE_BUFFER && up && Shows(c)
              case Unknown =>
                && status == FAILED(false)
                && Enabled(service, c, Event.Fail(order)) && Shows(After(service, c, Event.Fail(order)))
              case Bad => status == FAILED(true) && up && done == c.done && c.waiting == Outstanding(table.Calls())
              case Asserts => status == ASSERTED
              case Got(reply, _) =>
                && status == SUCCESS(reply) && missing == (BytesId(service.bigEndian, reply.id) !in c.waiting)
                && (!missing ==> up && Enabled(service, c, Complete) && Shows(After(service, c, Complete)))
    {
      hide Join, Chained, Different, Hold, Ends, ClosureTable.Threaded, ClosureTable.CallsIn, DecodeReply, BytesId;
      ghost var b := incoming.Contents();
      SameDecoding(service, table.slots[..], b);
      incoming.ApartLasts(outgoing.frags);
      status := ClientDeserialize(incoming, Unpacker(service, table.slots[..]));
      ApartStill(outgoing.frags, incoming.frags, old(SetOf(incoming.frags)));
      assert NextReply(service, c) == DecodeReply(Awaited(service, c.waiting), b);
      missing, order := false, [];
      if status.FAILED? && !status.found { order := Fail(c); }
      if status.SUCCESS? {
        var id: nat := BytesId(service.bigEndian, status.frame.id);
        IsHeld(table.slots[..], id);
        missing := !ClosureTable.Holds(table.slots[..], id);
        if missing { return; }
        Finish(id, status.frame.outcome);
      }
    }

    // The closure of a call is called, and its id is free again.
    method Finish(id: Word, outcome: Outcome)
      requires Valid() && id in table.Calls()
      modifies this`done, table, table.slots
      ensures Valid() && table.slots == old(table.slots)
      ensures Outstanding(table.Calls()) == old(Outstanding(table.Calls())) - {id}
      ensures done == old(done) + [Done(old(table.Calls())[id].number, outcome)]
    {
      hide Buffer.Linked, Join, ClosureTable.Threaded, ClosureTable.CallsIn;
      var call := table.Release(id);
      OutstandingMore(old(table.Calls()), id, call);
      done := done + [Done(call.number, outcome)];
    }

    // The same with what the loop does about it: it calls the closure, or fails the client, for an unknown id once
    // more.  After a tripped assertion, and without a closure to call, nothing is said of the client.
    method Turn(ghost c: Connection, ghost events: seq<Event>, ghost d: Connection)
      returns (took: seq<Reply>, ending: Ending, ghost more: seq<Event>, ghost e: Connection)
      requires Valid() && Shows(d) && up && Leads(service, c, events, d)
      modifies this, incoming, SetOf(incoming.frags), outgoing, table, table.slots
      ensures Leads(service, c, more, e) && (Inv(service, d) ==> ending.Waits? && Inv(service, e))
      ensures ending.Waits? || ending.FailedOnce? ==> Valid() && Shows(e) && up == ending.Waits?
      ensures ending.Waits? ==> table.slots == old(table.slots) && SetOf(incoming.frags) <= old(SetOf(incoming.frags))
      ensures Comes(service, d) ==>
        && ending.Waits? && took == [NextReply(service, d).frame] && more == events + [Complete]
        && e.clientIn == NextReply(service, d).rest && |e.clientIn| < |d.clientIn|
        && e.waiting == d.waiting - {BytesId(service.bigEndian, NextReply(service, d).frame.id)}
      ensures !Comes(service, d) ==>
        && ending == EndingOf(NextReply(service, d)) && took == []
        && if ending.FailedOnce? || ending.FailedTwice?
           then |more| == |events| + 1 && events < more && more[|events|].Fail?
           else more == events && e == d
    {
      hide Join, Chained, Different, Hold, Ends, ClosureTable.Threaded, ClosureTable.CallsIn, DecodeReply, BytesId;
      hide Inv, Enabled, Leads, After;
      if Inv(service, d) { NextReplyIsRight(service, d); }
      took, ending, more, e := [], Waits, events, d;
      var status, missing;
      ghost var order;
      status, missing, order := TakeReply(d);
      match status {
        case INCOMPLETE_BUFFER =>
        case ASSERTED => ending := Asserted;
        case FAILED(found) =>
          if found { order := Fail(d); }
          ending := if found then FailedOnce else FailedTwice;
          LeadsOn(service, c, events, d, Event.Fail(order));
          more, e := events + [Event.Fail(order)], After(service, d, Event.Fail(order));
        case SUCCESS(reply) =>
          if missing {
            ending := NoClosure;
          } else {
            took := [reply];
            OneCompleted(service, d);
            if Inv(service, d) { Kept(service, d, Complete); }
            LeadsOn(service, c, events, d, Complete);
            more, e := events + [Complete], After(service, d, Complete);
          }
      }
    }

    // The readable part of handle_client_fd_events: replies are taken until one is incomplete or cannot be dealt with.
    // The chunk is whatever the other side has written.
    method Readable(chunk: seq<Byte>, ghost c: Connection)
      returns (taken: seq<Reply>, ending: Ending, ghost events: seq<Event>, ghost d: Connection)
      requires Valid() && Shows(c) && up && chunk <= c.toClient
      modifies this, incoming, SetOf(incoming.frags), outgoing, table, table.slots
      // what is taken and how it ends depend on the calls that wait and on the bytes
      ensures var t := TakeReplies(service, c.waiting, old(incoming.Contents()) + chunk);
              && taken == t.frames && ending == EndingOf(t.stop) && (ending == FailedTwice <==> t.stop.Unknown?)
              && (ending == Waits ==> incoming.Contents() == t.rest)
      ensures ending.Waits? || ending.FailedOnce? ==> Valid() && Shows(d) && up == ending.Waits?
      // up to the first failure, assertion or missing closure
      ensures Leads(service, c, events, d)
      ensures |events| > |taken| && events[0] == ReceiveReplies(|chunk|)
      ensures forall i :: 0 < i <= |taken| ==> events[i] == Complete
      ensures if ending.FailedOnce? || ending.FailedTwice? then |events| == |taken| + 2 && events[|taken| + 1].Fail?
              else |events| == |taken| + 1
      ensures ending.Waits? ==> NextReply(service, d) == Incomplete
      // nothing that the server has written is in the way
      ensures Inv(service, c) ==> ending.Waits? && Inv(service, d)
      ensures up && ending.Waits? ==> fresh(SetOf(incoming.frags) - old(SetOf(incoming.frags)))
    {
      hide Join, Chained, Different, Hold, Ends, ClosureTable.Threaded, ClosureTable.CallsIn, DecodeReply, BytesId;
      hide Inv, Enabled, Leads, After, TakeReplies, Comes;
      taken, ending := [], Waits;
      d, events := Received(chunk, c);
      if Inv(service, c) { LeadsWell(service, c, events, d); }
      NoneBefore(TakeReplies(service, d.waiting, d.clientIn));
      while incoming.size > 0
        invariant Valid() && Shows(d) && up && Leads(service, c, events, d) && ending == Waits
        invariant Inv(service, c) ==> Inv(service, d)
        invariant TakeReplies(service, c.waiting, c.clientIn + chunk)
          == Before(taken, TakeReplies(service, d.waiting, d.clientIn))
        invariant |events| == |taken| + 1 && events[0] == ReceiveReplies(|chunk|)
        invariant forall i :: 0 < i < |events| ==> events[i] == Complete
        invariant fresh(SetOf(incoming.frags) - old(SetOf(incoming.frags))) && table.slots == old(table.slots)
        decreases |d.clientIn|
      {
        TakesOne(service, d);
        assert taken + [] == taken;
        var took;
        took, ending, events, d := Turn(c, events, d);
        if took == [] { return; }
        OneBefore(taken, took[0], TakeReplies(service, d.waiting, d.clientIn));
        taken := taken + took;
      }
      NothingThere(service, d);
      NothingToTake(service, d.waiting);
      assert taken + [] == taken;
    }

    // The bytes that could be read are appended.
    method Received(chunk: seq<Byte>, ghost c: Connection) returns (ghost d: Connection, ghost events: seq<Event>)
      requires Valid() && Shows(c) && up && chunk <= c.toClient
      modifies incoming, SetOf(incoming.frags)
      ensures Valid() && Shows(d) && Leads(service, c, events, d)
      ensures d.clientIn == c.clientIn + chunk && d.waiting == c.waiting
      ensures events == [ReceiveReplies(|chunk|)] && fresh(SetOf(incoming.frags) - old(SetOf(incoming.frags)))
    {
      hide Join, Chained, Different, Hold, Ends, ClosureTable.Threaded, ClosureTable.CallsIn;
      incoming.ApartLasts(outgoing.frags);
      incoming.Append(chunk);
      ApartStill(outgoing.frags, incoming.frags, old(SetOf(incoming.frags)));
      var e := ReceiveReplies(|chunk|);
      assert Enabled(service, c, e);
      d, events := After(service, c, e), [e];
      LeadsOn(service, c, [], c, e);
    }

    // The closures that wait are called with no message.
    method CallAll(waiting: seq<ClosureTable.Completion<Call>>)
      modifies this`done
      ensures done == old(done) + NoAnswers(waiting)
    {
      var i: nat := 0;
      while i < |waiting|
        invariant i <= |waiting| && done == old(done) + NoAnswers(waiting)[..i]
      {
        done := done + [Done(waiting[i].call.number, NoMessage)];
        i := i + 1;
      }
    }
  }

  // ---- replies that the loop cannot deal with ----

  // A reply with a message, an empty one, under id 0, which never waits.
  const UNKNOWN_ID: seq<Byte> := seq(16, i => 0)

  // A reply without success that announces a message of one byte.
  const ANNOUNCED: seq<Byte> := [1, 0, 0, 0, 0, 0, 0, 0, 1, 0, 0, 0, 0, 0, 0, 0, 0]

  // A reply without success under id 0.
  const STRAY: seq<Byte> := [1, 0, 0, 0, 0, 0, 0, 0, 0, 0, 0, 0, 0, 0, 0, 0]

  lemma NoSuchId(s: Service)
    ensures TakeReplies(s, map[], UNKNOWN_ID) == Taken([], UNKNOWN_ID, Unknown)
  {
    hide DecodeReply;
    ReplyDecoded(Awaited(s, map[]), UNKNOWN_ID, 0, 0, 0);
  }

  lemma NotAnnounced(s: Service)
    ensures TakeReplies(s, map[], ANNOUNCED) == Taken([], ANNOUNCED, Asserts)
  {
    hide DecodeReply;
    ReplyDecoded(Awaited(s, map[]), ANNOUNCED, 1, 0, 1);
  }

  lemma NotLookedUp(s: Service)
    ensures TakeReplies(s, map[], STRAY).stop.Got? && TakeReplies(s, map[], STRAY).frames == []
  {
    hide DecodeReply;
    ReplyDecoded(Awaited(s, map[]), STRAY, 1, 0, 0);
  }

  // Three new clients of any service meet them.
  method CannotGoOn(service: Service) returns (first: Ending, second: Ending, third: Ending)
    ensures first == FailedTwice && second == Asserted && third == NoClosure
  {
    hide TakeReplies;
    NoSuchId(service);
    NotAnnounced(service);
    NotLookedUp(service);
    first := Meet(service, UNKNOWN_ID);
    second := Meet(service, ANNOUNCED);
    third := Meet(service, STRAY);
  }

  // What becomes of a new client that these bytes reach.
  method Meet(service: Service, b: seq<Byte>) returns (ending: Ending)
    ensures ending == EndingOf(TakeReplies(service, map[], b).stop)
  {
    hide Inv, TakeReplies;
    var client := new Client(service);
    assert [] + b == b;
    var taken;
    ghost var events, d;
    taken, ending, events, d := client.Readable(b, Start().(toClient := b));
  }
}
