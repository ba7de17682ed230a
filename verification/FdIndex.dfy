/**
 * The dispatcher's index of file descriptors: a map from descriptors to places in two parallel lists, kept dense by
 * moving the last element into a gap, and the loop that delivers events while callbacks change all of this.
 */
module FdIndex {

  datatype Option<T> = None | Some(value: T)

  datatype Notify = Notify(fd: nat, events: bv32)

  // The place of a descriptor in the lists, and whether it was closed since the delivery began.
  datatype FdEntry = FdEntry(index: int, closed: bool)

  // What memset with 255 leaves.
  const UNKNOWN: FdEntry := FdEntry(-1, true)

  datatype Watch<C> = Watch(events: bv32, callback: C)

  // The events in both.
  function Common(a: bv32, b: bv32): bv32 {
    a & b
  }

  // An event m is one bit: 1 for a readable descriptor, 2 for a writable one.
  predicate Has(events: bv32, m: bv32) {
    events & m != 0
  }

  // These events are a part of both others, and no readable or writable event that is in both is missing.
  ghost predicate InBoth(events: bv32, a: bv32, b: bv32) {
    && events & a == events && events & b == events
    && forall m :: m == 1 || m == 2 ==> (Has(events, m) <==> Has(a, m) && Has(b, m))
  }

  // There are none exactly when no event is in both.
  lemma NoneInBoth(a: bv32, b: bv32)
    ensures InBoth(0, a, b) <==> !(Has(a, 1) && Has(b, 1)) && !(Has(a, 2) && Has(b, 2))
  {
    NoBits();
    hide Has;
  }

  lemma CommonEvents(a: bv32, b: bv32)
    ensures InBoth(Common(a, b), a, b)
  {
    FirstBit(a, b);
    SecondBit(a, b);
    PartOf(a, b);
    hide Common, Has;
  }

  lemma FirstBit(a: bv32, b: bv32)
    ensures Has(Common(a, b), 1) <==> Has(a, 1) && Has(b, 1)
  {
  }

  lemma SecondBit(a: bv32, b: bv32)
    ensures Has(Common(a, b), 2) <==> Has(a, 2) && Has(b, 2)
  {
  }

  lemma PartOf(a: bv32, b: bv32)
    ensures Common(a, b) & a == Common(a, b) && Common(a, b) & b == Common(a, b)
  {
  }

  lemma NoBits()
    ensures !Has(0, 1) && !Has(0, 2)
  {
  }

  // ---- the index as a value ----

  function IndexOf(fdMap: seq<FdEntry>, fd: nat): int {
    if fd < |fdMap| then fdMap[fd].index else -1
  }

  // The descriptor at place i knows its place.
  ghost predicate Knows(fdMap: seq<FdEntry>, desired: seq<Notify>, i: nat)
    requires i < |desired|
  {
    IndexOf(fdMap, desired[i].fd) == i
  }

  // The place of a descriptor, if it has one, is its own.
  ghost predicate Placed(fdMap: seq<FdEntry>, desired: seq<Notify>, fd: nat) {
    IndexOf(fdMap, fd) == -1 || (0 <= IndexOf(fdMap, fd) < |desired| && desired[IndexOf(fdMap, fd)].fd == fd)
  }

  ghost predicate Matched(fdMap: seq<FdEntry>, desired: seq<Notify>) {
    && (forall i: nat :: i < |desired| ==> Knows(fdMap, desired, i))
    && (forall fd: nat :: Placed(fdMap, desired, fd))
  }

  // What is watched for a descriptor.
  function Watched<C>(fdMap: seq<FdEntry>, desired: seq<Notify>, callbacks: seq<C>, fd: nat): Option<Watch<C>> {
    var i := IndexOf(fdMap, fd);
    if 0 <= i < |desired| && i < |callbacks| then Some(Watch(desired[i].events, callbacks[i])) else None
  }

  // The last element moves into the gap.
  lemma Removed<C>(fdMap: seq<FdEntry>, desired: seq<Notify>, callbacks: seq<C>, fd: nat)
    requires Matched(fdMap, desired) && |callbacks| == |desired| && IndexOf(fdMap, fd) != -1
    ensures var i, last := fdMap[fd].index, |desired| - 1;
            && 0 <= i <= last && desired[i].fd == fd && desired[last].fd < |fdMap|
            && var map1 := fdMap[fd := fdMap[fd].(index := -1)];
               var map2 := if i == last then map1 else map1[desired[last].fd := map1[desired[last].fd].(index := i)];
               var now, calls := desired[i := desired[last]][..last], callbacks[i := callbacks[last]][..last];
               && Matched(map2, now)
               && Watched(map2, now, calls, fd) == None
               && forall g: nat :: g != fd ==> Watched(map2, now, calls, g) == Watched(fdMap, desired, callbacks, g)
  {
    assert Placed(fdMap, desired, fd);
    var i, last := fdMap[fd].index, |desired| - 1;
    assert Knows(fdMap, desired, last);
    var map1 := fdMap[fd := fdMap[fd].(index := -1)];
    var map2 := if i == last then map1 else map1[desired[last].fd := map1[desired[last].fd].(index := i)];
    var now := desired[i := desired[last]][..last];
    forall j: nat | j < |now|
      ensures Knows(map2, now, j)
    {
      assert Knows(fdMap, desired, j);
    }
    forall g: nat
      ensures Placed(map2, now, g)
      ensures g != fd ==>
        Watched(map2, now, callbacks[i := callbacks[last]][..last], g) == Watched(fdMap, desired, callbacks, g)
    {
      assert Placed(fdMap, desired, g);
    }
  }

  // A descriptor that had no place gets the one at the end.
  lemma Added<C>(fdMap: seq<FdEntry>, desired: seq<Notify>, callbacks: seq<C>, fd: nat, events: bv32, c: C)
    requires Matched(fdMap, desired) && |callbacks| == |desired| && fd < |fdMap| && fdMap[fd].index == -1
    ensures var now := fdMap[fd := fdMap[fd].(index := |desired|)];
            && Matched(now, desired + [Notify(fd, events)])
            && Watched(now, desired + [Notify(fd, events)], callbacks + [c], fd) == Some(Watch(events, c))
            && forall g: nat :: g != fd ==>
                 Watched(now, desired + [Notify(fd, events)], callbacks + [c], g)
                   == Watched(fdMap, desired, callbacks, g)
  {
    var now, more := fdMap[fd := fdMap[fd].(index := |desired|)], desired + [Notify(fd, events)];
    forall j: nat | j < |more|
      ensures Knows(now, more, j)
    {
      if j < |desired| { assert Knows(fdMap, desired, j); }
    }
    forall g: nat
      ensures Placed(now, more, g)
      ensures g != fd ==> Watched(now, more, callbacks + [c], g) == Watched(fdMap, desired, callbacks, g)
    {
      assert Placed(fdMap, desired, g);
    }
  }

  // Only events and callback of a descriptor that has a place change.
  lemma Changed<C>(fdMap: seq<FdEntry>, desired: seq<Notify>, callbacks: seq<C>, fd: nat, events: bv32, c: C)
    requires Matched(fdMap, desired) && |callbacks| == |desired| && IndexOf(fdMap, fd) != -1
    ensures var i := IndexOf(fdMap, fd);
            && 0 <= i < |desired|
            && var now, calls := desired[i := Notify(fd, events)], callbacks[i := c];
               && Matched(fdMap, now)
               && Watched(fdMap, now, calls, fd) == Some(Watch(events, c))
               && forall g: nat :: g != fd ==> Watched(fdMap, now, calls, g) == Watched(fdMap, desired, callbacks, g)
  {
    assert Placed(fdMap, desired, fd);
    var i := IndexOf(fdMap, fd);
    var now := desired[i := Notify(fd, events)];
    forall j: nat | j < |now|
      ensures Knows(fdMap, now, j)
    {
      assert Knows(fdMap, desired, j);
    }
    forall g: nat
      ensures Placed(fdMap, now, g)
      ensures g != fd ==> Watched(fdMap, now, callbacks[i := c], g) == Watched(fdMap, desired, callbacks, g)
    {
      assert Placed(fdMap, desired, g);
    }
  }

  // ---- a whole delivery ----

  // What a callback may do to the index.
  datatype Action<C> = Watching(fd: nat, watch: Option<Watch<C>>) | Closing(fd: nat)

  // What is watched after some actions: the last one that concerns the descriptor decides.
  function WatchAfter<C>(acts: seq<Action<C>>, fd: nat, was: Option<Watch<C>>): Option<Watch<C>> {
    if acts == [] then was
    else
      var last := acts[|acts| - 1];
      if last.fd != fd then WatchAfter(acts[..|acts| - 1], fd, was)
      else if last.Watching? then last.watch
      else None
  }

  // What is called for an event when these actions have happened since the delivery began: the callback that is
  // registered by then, for the events that are wanted by then, and none when the descriptor was closed, even if it is
  // watched again.
  ghost function CallFor<C>(n: Notify, acts: seq<Action<C>>, was: Option<Watch<C>>): Option<Watch<C>> {
    var w := WatchAfter(acts, n.fd, was);
    if Closing(n.fd) in acts || w.None? || Common(w.value.events, n.events) == 0 then None
    else Some(Watch(Common(w.value.events, n.events), w.value.callback))
  }

  // The same event by event, and by the actions: a call means that the descriptor was not closed, and that the last
  // action on it, if there is one, or else the watch from before, asks for some event that is reported.
  lemma CalledEvents<C>(n: Notify, acts: seq<Action<C>>, was: Option<Watch<C>>)
    ensures var call, w := CallFor(n, acts, was), WatchAfter(acts, n.fd, was);
            && (call.Some? ==> Closing(n.fd) !in acts && w.Some? && call.value.callback == w.value.callback)
            && (call.Some? ==> call.value.events != 0 && InBoth(call.value.events, w.value.events, n.events))
            && (call.None? && Closing(n.fd) !in acts && w.Some? ==> InBoth(0, w.value.events, n.events))
  {
    hide Common, InBoth;
    var w := WatchAfter(acts, n.fd, was);
    if w.Some? { CommonEvents(w.value.events, n.events); }
  }

  // The last action on a descriptor decides how it is watched, and without one it is watched as before.
  lemma {:induction false} LastDecides<C>(acts: seq<Action<C>>, fd: nat, was: Option<Watch<C>>, i: nat)
    requires i < |acts| ==> acts[i].fd == fd
    requires forall j :: i < j < |acts| ==> acts[j].fd != fd
    requires i >= |acts| ==> forall j :: 0 <= j < |acts| ==> acts[j].fd != fd
    ensures WatchAfter(acts, fd, was) ==
      if i >= |acts| then was else if acts[i].Watching? then acts[i].watch else None
    decreases |acts|
  {
    if acts != [] && acts[|acts| - 1].fd != fd {
      var n := |acts| - 1;
      LastDecides(acts[..n], fd, was, if i < n then i else n);
    }
  }

  function Flatten<C>(script: seq<seq<Action<C>>>): seq<Action<C>> {
    if script == [] then [] else Flatten(script[..|script| - 1]) + script[|script| - 1]
  }

  // ---- the dispatcher ----

  class Dispatch<C> {
    var fdMap: seq<FdEntry>
    var desired: seq<Notify>
    var callbacks: seq<C>

    ghost predicate Valid()
      reads this
    {
      |fdMap| > 0 && |callbacks| == |desired| && Matched(fdMap, desired)
    }

    ghost function Of(fd: nat): Option<Watch<C>>
      reads this
    {
      Watched(fdMap, desired, callbacks, fd)
    }

    ghost predicate ClosedSince(fd: nat)
      reads this
    {
      fd < |fdMap| && fdMap[fd].closed
    }

    constructor (size: nat)
      requires size > 0
      ensures Valid() && forall fd: nat :: Of(fd) == None
    {
      fdMap := seq(size, i => UNKNOWN);
      desired, callbacks := [], [];
    }

    // ensure_fd_map_big_enough
    method Ensure(fd: nat)
      requires Valid()
      modifies this
      ensures Valid() && fd < |fdMap| && |fdMap| >= |old(fdMap)| && fdMap[..|old(fdMap)|] == old(fdMap)
      ensures forall g: nat :: Of(g) == old(Of(g))
      ensures forall g: nat :: g < |old(fdMap)| ==> ClosedSince(g) == old(ClosedSince(g))
    {
      var size := |fdMap|;
      while fd >= size
        invariant size >= |fdMap| && unchanged(this)
        decreases fd - size
      {
        size := size * 2;
      }
      if size > |fdMap| {
        ghost var was := fdMap;
        fdMap := fdMap + seq(size - |fdMap|, i => UNKNOWN);
        assert forall g: nat :: IndexOf(fdMap, g) == IndexOf(was, g);
        assert forall i: nat :: i < |desired| ==> Knows(was, desired, i) ==> Knows(fdMap, desired, i);
        assert forall g: nat :: Placed(was, desired, g) ==> Placed(fdMap, desired, g);
      }
    }

    // deallocate_notify_desired_index
    method Deallocate(fd: nat)
      requires Valid() && IndexOf(fdMap, fd) != -1
      modifies this
      ensures Valid() && Of(fd) == None && |fdMap| == |old(fdMap)|
      ensures forall g: nat :: g != fd ==> Of(g) == old(Of(g))
      ensures forall g: nat :: ClosedSince(g) == old(ClosedSince(g))
    {
      Removed(fdMap, desired, callbacks, fd);
      hide Matched, Watched;
      var i, last := fdMap[fd].index, |desired| - 1;
      var lastFd := desired[last].fd;
      fdMap := fdMap[fd := fdMap[fd].(index := -1)];
      if i != last { fdMap := fdMap[lastFd := fdMap[lastFd].(index := i)]; }
      desired := desired[i := desired[last]][..last];
      callbacks := callbacks[i := callbacks[last]][..last];
    }

    // protobuf_c_rpc_dispatch_watch_fd, as far as it concerns the index
    method WatchFd(fd: nat, watch: Option<Watch<C>>)
      requires Valid()
      modifies this
      ensures Valid() && Of(fd) == watch && |fdMap| >= |old(fdMap)|
      ensures forall g: nat :: g != fd ==> Of(g) == old(Of(g))
      ensures forall g: nat :: g < |old(fdMap)| ==> ClosedSince(g) == old(ClosedSince(g))
    {
      Ensure(fd);
      hide Matched, Watched;
      if fdMap[fd].index == -1 {
        NoPlace(fdMap, desired, callbacks, fd);
        if watch.Some? {
          Added(fdMap, desired, callbacks, fd, watch.value.events, watch.value.callback);
          fdMap := fdMap[fd := fdMap[fd].(index := |desired|)];
          desired := desired + [Notify(fd, watch.value.events)];
          callbacks := callbacks + [watch.value.callback];
        }
      } else if watch.None? {
        Deallocate(fd);
      } else {
        Changed(fdMap, desired, callbacks, fd, watch.value.events, watch.value.callback);
        var i := fdMap[fd].index;
        desired := desired[i := Notify(fd, watch.value.events)];
        callbacks := callbacks[i := watch.value.callback];
      }
    }

    // protobuf_c_rpc_dispatch_fd_closed, as far as it concerns the index
    method FdClosed(fd: nat)
      requires Valid()
      modifies this
      ensures Valid() && Of(fd) == None && ClosedSince(fd) && |fdMap| >= |old(fdMap)|
      ensures forall g: nat :: g != fd ==> Of(g) == old(Of(g))
      ensures forall g: nat :: g != fd && g < |old(fdMap)| ==> ClosedSince(g) == old(ClosedSince(g))
    {
      Ensure(fd);
      SameIndex(fdMap, desired, callbacks, fd, true);
      hide Matched, Watched;
      fdMap := fdMap[fd := fdMap[fd].(closed := true)];
      if fdMap[fd].index != -1 {
        Deallocate(fd);
      } else {
        NoPlace(fdMap, desired, callbacks, fd);
      }
    }

    // The beginning of a delivery: nothing has been closed since for the descriptors that have events.
    method Begin(notifies: seq<Notify>)
      requires Valid()
      modifies this
      ensures Valid() && forall g: nat :: Of(g) == old(Of(g))
      ensures forall i :: 0 <= i < |notifies| ==> notifies[i].fd < |fdMap| && !ClosedSince(notifies[i].fd)
    {
      var fdMax: nat := 0;
      var i := 0;
      while i < |notifies|
        invariant 0 <= i <= |notifies| && forall j :: 0 <= j < i ==> notifies[j].fd <= fdMax
      {
        if fdMax < notifies[i].fd { fdMax := notifies[i].fd; }
        i := i + 1;
      }
      Ensure(fdMax);
      i := 0;
      while i < |notifies|
        invariant 0 <= i <= |notifies| && Valid() && fdMax < |fdMap|
        invariant forall g: nat :: Of(g) == old(Of(g))
        invariant forall j :: 0 <= j < i ==> !ClosedSince(notifies[j].fd)
      {
        var fd := notifies[i].fd;
        SameIndex(fdMap, desired, callbacks, fd, false);
        fdMap := fdMap[fd := fdMap[fd].(closed := false)];
        i := i + 1;
      }
    }

    // One turn of the delivery loop; between two turns callbacks may watch and close as they like.  The callback that
    // is called is the one that is registered now, for events that are wanted now, and never for a descriptor that was
    // closed since the delivery began.
    method Deliver(n: Notify) returns (call: Option<Watch<C>>)
      requires Valid() && n.fd < |fdMap|
      ensures call.Some? <==> !ClosedSince(n.fd) && Of(n.fd).Some? && Common(Of(n.fd).value.events, n.events) != 0
      ensures call.Some? ==> call.value == Watch(Common(Of(n.fd).value.events, n.events), Of(n.fd).value.callback)
      // event by event: what is delivered is what is wanted and reported
      ensures call.Some? ==> call.value.events != 0 && InBoth(call.value.events, Of(n.fd).value.events, n.events)
      ensures call.None? && !ClosedSince(n.fd) && Of(n.fd).Some? ==> InBoth(0, Of(n.fd).value.events, n.events)
    {
      hide Matched, Placed, Common, InBoth;
      if IndexOf(fdMap, n.fd) != -1 { InRange(fdMap, desired, n.fd); }
      call := None;
      if !fdMap[n.fd].closed && fdMap[n.fd].index != -1 {
        var i := fdMap[n.fd].index;
        var events := Common(desired[i].events, n.events);
        if events != 0 { call := Some(Watch(events, callbacks[i])); }
        CommonEvents(desired[i].events, n.events);
      }
    }

    // The watches are what the actions made of those in the lists of before.
    ghost predicate Tracks(past: seq<Action<C>>, m: seq<FdEntry>, d: seq<Notify>, c: seq<C>)
      reads this
    {
      forall g: nat :: Of(g) == WatchAfter(past, g, Watched(m, d, c, g))
    }

    // Of the descriptors that have events, those are marked that the actions closed.
    ghost predicate Marks(notifies: seq<Notify>, past: seq<Action<C>>)
      reads this
    {
      forall n :: n in notifies ==> n.fd < |fdMap| && (ClosedSince(n.fd) <==> Closing(n.fd) in past)
    }

    // The delivery of protobuf_c_rpc_dispatch_dispatch.  After turn i the actions script[i] happen, whatever they are;
    // in the source they are those of the callback that was called.
    method DeliverAll(notifies: seq<Notify>, script: seq<seq<Action<C>>>) returns (calls: seq<Option<Watch<C>>>)
      requires Valid() && |script| == |notifies|
      modifies this
      ensures Valid() && |calls| == |notifies|
      ensures forall i :: 0 <= i < |notifies| ==>
        calls[i] == CallFor(notifies[i], Flatten(script[..i]), old(Of(notifies[i].fd)))
      ensures forall fd: nat :: Of(fd) == WatchAfter(Flatten(script), fd, old(Of(fd)))
    {
      hide Matched, Watched, Common, Flatten, WatchAfter;
      ghost var m, d, c := fdMap, desired, callbacks;
      Begin(notifies);
      NothingHappened(notifies, m, d, c);
      NothingFlat<C>();
      calls := [];
      var i := 0;
      while i < |notifies|
        invariant 0 <= i <= |notifies| && |calls| == i && Valid()
        invariant Tracks(Flatten(script[..i]), m, d, c) && Marks(notifies, Flatten(script[..i]))
        invariant forall j :: 0 <= j < i ==>
          calls[j] == CallFor(notifies[j], Flatten(script[..j]), Watched(m, d, c, notifies[j].fd))
      {
        assert notifies[i] in notifies;
        var call := Deliver(notifies[i]);
        calls := calls + [call];
        FlatMore(script, i);
        Act(script[i], notifies, Flatten(script[..i]), m, d, c);
        i := i + 1;
      }
      assert script[..i] == script;
    }

    // The actions of a callback.
    method Act(acts: seq<Action<C>>, ghost notifies: seq<Notify>, ghost past: seq<Action<C>>, ghost m: seq<FdEntry>,
               ghost d: seq<Notify>, ghost c: seq<C>)
      requires Valid() && Tracks(past, m, d, c) && Marks(notifies, past)
      modifies this
      ensures Valid() && Tracks(past + acts, m, d, c) && Marks(notifies, past + acts)
    {
      hide Matched, Watched;
      assert past + acts[..0] == past;
      var k := 0;
      while k < |acts|
        invariant 0 <= k <= |acts| && Valid()
        invariant Tracks(past + acts[..k], m, d, c) && Marks(notifies, past + acts[..k])
      {
        match acts[k] {
          case Watching(fd, watch) => WatchFd(fd, watch);
          case Closing(fd) => FdClosed(fd);
        }
        assert past + acts[..k + 1] == past + acts[..k] + [acts[k]];
        k := k + 1;
      }
      assert acts[..k] == acts;
    }

    lemma NothingHappened(notifies: seq<Notify>, m: seq<FdEntry>, d: seq<Notify>, c: seq<C>)
      requires forall g: nat :: Of(g) == Watched(m, d, c, g)
      requires forall i :: 0 <= i < |notifies| ==> notifies[i].fd < |fdMap| && !ClosedSince(notifies[i].fd)
      ensures Tracks([], m, d, c) && Marks(notifies, [])
    {
    }
  }

  lemma NothingFlat<C>()
    ensures Flatten<C>([]) == []
  {
  }

  lemma FlatMore<C>(script: seq<seq<Action<C>>>, i: nat)
    requires i < |script|
    ensures Flatten(script[..i + 1]) == Flatten(script[..i]) + script[i]
  {
    assert script[..i + 1][..i] == script[..i];
  }

  lemma InRange(fdMap: seq<FdEntry>, desired: seq<Notify>, fd: nat)
    requires Matched(fdMap, desired) && IndexOf(fdMap, fd) != -1
    ensures 0 <= IndexOf(fdMap, fd) < |desired|
  {
    assert Placed(fdMap, desired, fd);
  }

  lemma NoPlace<C>(fdMap: seq<FdEntry>, desired: seq<Notify>, callbacks: seq<C>, fd: nat)
    requires IndexOf(fdMap, fd) == -1
    ensures Watched(fdMap, desired, callbacks, fd) == None
  {
  }

  lemma SameIndex<C>(fdMap: seq<FdEntry>, desired: seq<Notify>, callbacks: seq<C>, fd: nat, closed: bool)
    requires Matched(fdMap, desired) && fd < |fdMap|
    ensures var now := fdMap[fd := fdMap[fd].(closed := closed)];
            && Matched(now, desired)
            && forall g: nat :: Watched(now, desired, callbacks, g) == Watched(fdMap, desired, callbacks, g)
  {
    var now := fdMap[fd := fdMap[fd].(closed := closed)];
    forall i: nat | i < |desired|
      ensures Knows(now, desired, i)
    {
      assert Knows(fdMap, desired, i);
    }
    forall g: nat
      ensures Placed(now, desired, g)
    {
      assert Placed(fdMap, desired, g);
    }
  }
}
