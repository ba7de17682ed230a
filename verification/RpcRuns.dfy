/**
 * The runs of a connection, and what holds in every state of every run: safety, and that nothing gets stuck.
 */
module RpcRuns {
  import opened Bytes
  import opened Framing
  import opened RpcConnection

  ghost predicate IsRun(s: Service, run: seq<Connection>, events: seq<Event>) {
    && |run| == |events| + 1
    && run[0] == Start()
    && forall i: nat :: i < |events| ==> Follows(s, run[i], events[i], run[i + 1])
  }

  ghost predicate Follows(s: Service, c: Connection, e: Event, d: Connection) {
    Enabled(s, c, e) && d == After(s, c, e)
  }

  lemma {:induction false} Always(s: Service, run: seq<Connection>, events: seq<Event>, i: nat)
    requires IsRun(s, run, events) && i < |run|
    ensures Inv(s, run[i])
    decreases i
  {
    hide Inv, Enabled;
    if i == 0 {
      StartsWell(s);
    } else {
      Always(s, run, events, i - 1);
      assert Follows(s, run[i - 1], events[i - 1], run[i]);
      Kept(s, run[i - 1], events[i - 1]);
    }
  }

  lemma StepGrows(s: Service, c: Connection, e: Event)
    requires Enabled(s, c, e)
    ensures var d := After(s, c, e);
            c.done <= d.done && c.issued <= d.issued && c.served <= d.served && c.answers <= d.answers
  {
    hide EncodeRequest, EncodeReply, DecodeRequest, DecodeReply, BytesId, IdBytes, Awaited, ReplyTo, NewRequest, Lists;
  }

  // Nothing that happened is taken back.
  lemma {:induction false} OnlyGrows(s: Service, run: seq<Connection>, events: seq<Event>, i: nat, j: nat)
    requires IsRun(s, run, events) && i <= j < |run|
    ensures run[i].done <= run[j].done && run[i].issued <= run[j].issued
    ensures run[i].served <= run[j].served && run[i].answers <= run[j].answers
    decreases j
  {
    hide Enabled, After;
    if i < j {
      OnlyGrows(s, run, events, i, j - 1);
      assert Follows(s, run[j - 1], events[j - 1], run[j]);
      StepGrows(s, run[j - 1], events[j - 1]);
    }
  }

  // ---- what holds in every state of a run ----

  // Every closure is called at most once.
  lemma AtMostOnce(s: Service, run: seq<Connection>, events: seq<Event>, i: nat, c: Connection)
    requires IsRun(s, run, events) && i < |run| && c == run[i]
    ensures Distinct(DoneCalls(c.done))
  {
    Always(s, run, events, i);
  }

  // A closure that is called with a message gets an answer that the server gave to the request that was issued for it;
  // while the client is up, one that is called without a message was answered without one.
  lemma OwnAnswer(s: Service, run: seq<Connection>, events: seq<Event>, i: nat, c: Connection, d: Done)
    requires IsRun(s, run, events) && i < |run| && c == run[i] && d in c.done && (d.outcome.Message? || c.clientUp)
    ensures d.call < |c.served| && d.call < |c.issued| && c.served[d.call] == c.issued[d.call]
    ensures exists a :: a in c.answers && a.call == d.call && a.reply.outcome == d.outcome
                        && a.reply.index == c.issued[d.call].index && a.reply.id == c.issued[d.call].id
  {
    Always(s, run, events, i);
    hide RequestBytes, ReplyBytes, Waiting, Settled;
    if d.outcome.Message? {
      assert Genuine(c.answers, d);
    } else {
      var k :| 0 <= k < |c.done| && c.done[k] == d;
      assert c.answers[k] in c.answers;
      assert Genuine(c.answers, d);
    }
    var a :| a in c.answers && a.call == d.call && a.reply.outcome == d.outcome;
    assert RightReply(s, c.served[a.call], a.reply);
  }

  // An outstanding call is in exactly one place: on its way to the server, pending there, or answered and on its way
  // back.
  lemma OnePlace(s: Service, run: seq<Connection>, events: seq<Event>, i: nat, c: Connection, id: Word)
    requires IsRun(s, run, events) && i < |run| && c == run[i] && id in c.waiting
    ensures c.clientUp && |c.done| <= |c.answers| && c.waiting[id].number < |c.issued|
    ensures var n := c.waiting[id].number;
            var toServer, atServer := |c.served| <= n, n in c.pending;
            var toClient := n in AnsweredCalls(c.answers[|c.done|..]);
            && (toServer || atServer || toClient)
            && !(toServer && atServer) && !(toServer && toClient) && !(atServer && toClient)
  {
    Always(s, run, events, i);
    hide RequestBytes, ReplyBytes, BytesId, IdBytes, DoneOnce;
    var n := c.waiting[id].number;
    assert WaitsFor(s, c.waiting, c.issued, DoneCalls(c.done), id);
    AnsweredLater(c.done, c.answers, n);
    var later := AnsweredCalls(c.answers[|c.done|..]);
    forall k | 0 <= k < |later|
      ensures later[k] < |c.served|
    {
      assert c.answers[|c.done|..][k] in c.answers;
    }
  }

  lemma AnsweredLater(done: seq<Done>, answers: seq<Answer>, n: nat)
    requires Delivered(done, answers) && n !in DoneCalls(done)
    ensures n in AnsweredCalls(answers) <==> n in AnsweredCalls(answers[|done|..])
  {
    var all, later := AnsweredCalls(answers), AnsweredCalls(answers[|done|..]);
    assert all == DoneCalls(done) + later;
  }

  // Ids are used again, but two ids never wait for the same call.
  lemma OneId(s: Service, run: seq<Connection>, events: seq<Event>, i: nat, c: Connection, id: Word, other: Word)
    requires IsRun(s, run, events) && i < |run| && c == run[i] && id in c.waiting && other in c.waiting && id != other
    ensures c.waiting[id].number != c.waiting[other].number
  {
    Always(s, run, events, i);
    hide BytesId, IdBytes;
    assert WaitsFor(s, c.waiting, c.issued, DoneCalls(c.done), id);
    assert WaitsFor(s, c.waiting, c.issued, DoneCalls(c.done), other);
    IdRoundTrip(s.bigEndian, id);
    IdRoundTrip(s.bigEndian, other);
  }

  // Neither side ever rejects what the other sent, and every reply that arrives comes under an id that waits.
  lemma NeverRejected(s: Service, run: seq<Connection>, events: seq<Event>, i: nat, c: Connection)
    requires IsRun(s, run, events) && i < |run| && c == run[i]
    ensures c.serverUp ==> NextRequest(s, c).Incomplete? || NextRequest(s, c).Got?
    ensures c.clientUp ==> NextReply(s, c).Incomplete? || NextReply(s, c).Got?
    ensures c.clientUp && NextReply(s, c).Got? ==> Enabled(s, c, Complete)
  {
    hide NextRequest, NextReply, Answering, DoneOnce, Delivered, Waiting, BytesId, ReplyStream;
    Always(s, run, events, i);
    if c.serverUp { NextRequestIsRight(s, c); }
    if c.clientUp { NextReplyIsRight(s, c); }
  }

  lemma AllDone(s: Service, c: Connection)
    requires Inv(s, c) && forall n: nat :: n < |c.issued| ==> n in DoneCalls(c.done)
    ensures forall n: nat :: n < |c.issued| <==> n in DoneCalls(c.done)
    ensures c.waiting == map[]
  {
    hide RequestStream, ReplyStream, Answering, Delivered;
    var calls := DoneCalls(c.done);
    forall k | 0 <= k < |calls|
      ensures calls[k] < |c.issued|
    {
      assert c.done[k] in c.done;
    }
    if c.clientUp {
      assert forall id :: id !in c.waiting;
    }
  }

  // Once the client has failed, every call has been completed, and exactly once.
  lemma AllComplete(s: Service, run: seq<Connection>, events: seq<Event>, i: nat, c: Connection)
    requires IsRun(s, run, events) && i < |run| && c == run[i] && !c.clientUp
    ensures forall n: nat :: n < |c.issued| <==> n in DoneCalls(c.done)
    ensures Distinct(DoneCalls(c.done)) && c.waiting == map[]
  {
    Always(s, run, events, i);
    AllDone(s, c);
  }

  // When nothing is on the way and nothing is pending, nobody waits: every call has been answered.
  lemma QuietMeansDone(s: Service, run: seq<Connection>, events: seq<Event>, i: nat, c: Connection)
    requires IsRun(s, run, events) && i < |run| && c == run[i] && c.clientUp && c.serverUp && c.pending == map[]
    requires c.clientOut == c.toServer == c.serverIn == [] && c.serverOut == c.toClient == c.clientIn == []
    ensures forall n: nat :: n < |c.issued| <==> n in DoneCalls(c.done)
    ensures c.waiting == map[]
  {
    hide Waiting, DoneOnce, EncodeRequest, EncodeReply;
    Always(s, run, events, i);
    assert c.issued[|c.served|..] == [];
    assert c.answers[|c.done|..] == [];
    assert DoneCalls(c.done) == AnsweredCalls(c.answers);
    AllDone(s, c);
  }

  // When all bytes have arrived, a side that holds some can decode them.
  lemma ServerNeverStuck(s: Service, run: seq<Connection>, events: seq<Event>, i: nat, c: Connection)
    requires IsRun(s, run, events) && i < |run| && c == run[i] && c.clientUp && c.serverUp &&
      c.clientOut + c.toServer == [] && c.serverIn != []
    ensures Enabled(s, c, Serve)
  {
    hide DecodeRequest, EncodeRequest, ReplyStream, Answering, DoneOnce, Delivered, Waiting;
    Always(s, run, events, i);
    var rs := c.issued[|c.served|..];
    assert c.serverIn == c.serverIn + c.toServer + c.clientOut;
    RequestRoundTrip(s.Requests(), rs[0], RequestBytes(rs[1..]));
    assert rs[0] in c.issued;
  }

  lemma ClientNeverStuck(s: Service, run: seq<Connection>, events: seq<Event>, i: nat, c: Connection)
    requires IsRun(s, run, events) && i < |run| && c == run[i] && c.clientUp && c.serverUp &&
      c.serverOut + c.toClient == [] && c.clientIn != []
    ensures Enabled(s, c, Complete)
  {
    hide DecodeReply, EncodeReply, RequestStream, Answering, DoneOnce, Delivered, Waiting, BytesId;
    Always(s, run, events, i);
    var rs := c.answers[|c.done|..];
    assert c.clientIn == c.clientIn + c.toClient + c.serverOut;
    NextAnswerWaits(s, c);
    ReplyRoundTrip(Awaited(s, c.waiting), rs[0].reply, ReplyBytes(rs[1..]));
  }

  // What the last state of a run leads to is the last state of a longer run.
  lemma {:induction false} RunsOn(s: Service, run: seq<Connection>, events: seq<Event>, more: seq<Event>, d: Connection)
    returns (longer: seq<Connection>)
    requires IsRun(s, run, events) && Leads(s, run[|events|], more, d)
    ensures IsRun(s, longer, events + more) && run <= longer && longer[|events + more|] == d
    decreases |more|
  {
    hide Enabled, After;
    if more == [] {
      assert events + more == events;
      longer := run;
    } else {
      var next := After(s, run[|events|], more[0]);
      var now, past := run + [next], events + [more[0]];
      forall i: nat | i < |past|
        ensures Follows(s, now[i], past[i], now[i + 1])
      {
        if i < |events| { assert Follows(s, run[i], events[i], run[i + 1]); }
      }
      assert past + more[1..] == events + more;
      longer := RunsOn(s, now, past, more[1..], d);
    }
  }
}
