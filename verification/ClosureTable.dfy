/**
 * The client's table of outstanding calls.  A request id is one more than an index into the closure array; the slots
 * that wait for no reply are threaded into a free list through their data fields, ending in id 0.
 */
module ClosureTable {

  datatype Slot<C> = Free(next: nat) | Waiting(call: C)

  // A completed call: the id it waited under and its closure.
  datatype Completion<C> = Completion(id: nat, call: C)

  // ---- the array as a value ----

  predicate InTable<C>(slots: seq<Slot<C>>, id: nat) {
    1 <= id <= |slots|
  }

  predicate Holds<C>(slots: seq<Slot<C>>, id: nat) {
    InTable(slots, id) && slots[id - 1].Waiting?
  }

  // The outstanding calls.
  ghost function CallsIn<C>(slots: seq<Slot<C>>): map<nat, C> {
    map id: nat | id <= |slots| && Holds(slots, id) :: slots[id - 1].call
  }

  ghost predicate Distinct(s: seq<nat>) {
    forall i, j :: 0 <= i < j < |s| ==> s[i] != s[j]
  }

  // The id at which a list goes on after its first i elements; 0 at its end.
  function LinkAt(s: seq<nat>, i: nat): nat {
    if i < |s| then s[i] else 0
  }

  // The slot of free[i] leads to the next element.
  ghost predicate Leads<C>(slots: seq<Slot<C>>, free: seq<nat>, i: nat)
    requires i < |free|
  {
    InTable(slots, free[i]) && slots[free[i] - 1] == Free(LinkAt(free, i + 1))
  }

  // The list is acyclic, ends in 0, and runs through every id that holds no call.
  ghost predicate Threaded<C>(slots: seq<Slot<C>>, first: nat, free: seq<nat>) {
    && first == LinkAt(free, 0)
    && Distinct(free)
    && (forall i: nat :: i < |free| ==> Leads(slots, free, i))
    && (forall id: nat :: InTable(slots, id) && !Holds(slots, id) ==> id in free)
  }

  // The ids split into those that hold a call and those on the free list.
  lemma Partition<C>(slots: seq<Slot<C>>, first: nat, free: seq<nat>, id: nat)
    requires Threaded(slots, first, free)
    ensures InTable(slots, id) ==> (id in CallsIn(slots) <==> id !in free)
    ensures !InTable(slots, id) ==> id !in CallsIn(slots) && id !in free
  {
    if id in free {
      var i: nat :| i < |free| && free[i] == id;
      assert Leads(slots, free, i);
    }
  }

  // Taking the first element off the list.
  lemma Popped<C>(slots: seq<Slot<C>>, first: nat, free: seq<nat>, call: C)
    requires Threaded(slots, first, free) && first != 0
    ensures free != [] && free[0] == first && InTable(slots, first) && slots[first - 1].Free? &&
      first !in CallsIn(slots)
    ensures Threaded(slots[first - 1 := Waiting(call)], slots[first - 1].next, free[1..])
    ensures CallsIn(slots[first - 1 := Waiting(call)]) == CallsIn(slots)[first := call]
  {
    assert Leads(slots, free, 0);
    var now, rest := slots[first - 1 := Waiting(call)], free[1..];
    forall i: nat | i < |rest|
      ensures Leads(now, rest, i)
    {
      assert Leads(slots, free, i + 1);
    }
    forall id: nat | InTable(now, id) && !Holds(now, id)
      ensures id in rest
    {
      assert !Holds(slots, id);
      var k :| 0 <= k < |free| && free[k] == id;
      assert rest[k - 1] == id;
    }
    forall id: nat
      ensures Holds(now, id) <==> Holds(slots, id) || id == first
    {
    }
  }

  // Putting an id back at the front.
  lemma Pushed<C>(slots: seq<Slot<C>>, first: nat, free: seq<nat>, id: nat)
    requires Threaded(slots, first, free) && Holds(slots, id)
    ensures id !in free
    ensures Threaded(slots[id - 1 := Free(first)], id, [id] + free)
    ensures CallsIn(slots[id - 1 := Free(first)]) == CallsIn(slots) - {id}
  {
    Partition(slots, first, free, id);
    var now, more := slots[id - 1 := Free(first)], [id] + free;
    forall i: nat | i < |more|
      ensures Leads(now, more, i)
    {
      if i > 0 { assert Leads(slots, free, i - 1); }
    }
    forall k: nat | InTable(now, k) && !Holds(now, k)
      ensures k in more
    {
      if k != id { assert !Holds(slots, k); }
    }
    forall k: nat
      ensures Holds(now, k) <==> Holds(slots, k) && k != id
    {
    }
  }

  // Doubling the array puts the new ids in front.
  lemma Grown<C>(slots: seq<Slot<C>>, first: nat, free: seq<nat>, more: seq<Slot<C>>, added: seq<nat>)
    requires Threaded(slots, first, free) && |slots| >= 1 && |more| == 2 * |slots|
    requires more[..|slots|] == slots
    requires forall j :: |slots| <= j < |more| - 1 ==> more[j] == Free(j + 2)
    requires more[|more| - 1] == Free(first)
    requires |added| == |slots| && forall i :: 0 <= i < |added| ==> added[i] == |slots| + 1 + i
    ensures Threaded(more, |slots| + 1, added + free)
    ensures CallsIn(more) == CallsIn(slots)
  {
    var size, list := |slots|, added + free;
    forall j | 0 <= j < size
      ensures more[j] == slots[j]
    {
      assert more[..size][j] == slots[j];
    }
    forall i: nat | i < |list|
      ensures Leads(more, list, i)
    {
      if i < size {
        assert list[i] == added[i];
      } else {
        assert Leads(slots, free, i - size);
        assert LinkAt(list, i + 1) == LinkAt(free, i - size + 1);
      }
    }
    GrownDistinct(slots, first, free, added);
    forall id: nat | InTable(more, id) && !Holds(more, id)
      ensures id in list
    {
      if id > size {
        assert list[id - size - 1] == id;
      } else {
        assert !Holds(slots, id);
      }
    }
    forall id: nat
      ensures Holds(more, id) <==> Holds(slots, id)
    {
    }
  }

  lemma GrownDistinct<C>(slots: seq<Slot<C>>, first: nat, free: seq<nat>, added: seq<nat>)
    requires Threaded(slots, first, free)
    requires |added| == |slots| && forall i :: 0 <= i < |added| ==> added[i] == |slots| + 1 + i
    ensures Distinct(added + free)
  {
    var list := added + free;
    forall i, j | 0 <= i < j < |list|
      ensures list[i] != list[j]
    {
      if j >= |added| { assert Leads(slots, free, j - |added|); }
    }
  }

  ghost predicate Listed<C>(done: seq<Completion<C>>, id: nat) {
    exists k :: 0 <= k < |done| && done[k].id == id
  }

  // The calls under ids up to n, in the order of their ids.
  ghost predicate Swept<C>(slots: seq<Slot<C>>, n: nat, done: seq<Completion<C>>) {
    && (forall c :: c in done ==> Holds(slots, c.id) && c.id <= n && c.call == slots[c.id - 1].call)
    && (forall j, k :: 0 <= j < k < |done| ==> done[j].id < done[k].id)
    && (forall id: nat :: id <= n && Holds(slots, id) ==> Listed(done, id))
  }

  lemma ListedMore<C>(done: seq<Completion<C>>, c: Completion<C>, id: nat)
    requires Listed(done, id) || id == c.id
    ensures Listed(done + [c], id)
  {
    var now := done + [c];
    assert now[|done|] == c;
    if Listed(done, id) {
      var k :| 0 <= k < |done| && done[k].id == id;
      assert now[k].id == id;
    }
  }

  lemma SweptMore<C>(slots: seq<Slot<C>>, n: nat, done: seq<Completion<C>>)
    requires n < |slots| && Swept(slots, n, done)
    ensures Swept(slots, n + 1, if slots[n].Waiting? then done + [Completion(n + 1, slots[n].call)] else done)
  {
    hide Listed;
    if slots[n].Waiting? {
      var c := Completion(n + 1, slots[n].call);
      forall id: nat | id <= n + 1 && Holds(slots, id)
        ensures Listed(done + [c], id)
      {
        ListedMore(done, c, id);
      }
    }
  }

  // ---- the table ----

  class Table<C(==)> {
    var slots: array<Slot<C>>
    var firstFree: nat
    ghost var free: seq<nat>

    ghost predicate Valid()
      reads this, slots
    {
      1 <= slots.Length < 0x1_0000_0000 && Threaded(slots[..], firstFree, free)
    }

    ghost function Calls(): map<nat, C>
      reads this, slots
    {
      CallsIn(slots[..])
    }

    // set_state_connected
    constructor ()
      ensures Valid() && fresh(slots)
      ensures slots.Length == 1 && free == [1] && Calls() == map[]
    {
      slots := new Slot<C>[1](_ => Free(0));
      firstFree := 1;
      free := [1];
      new;
      assert Leads(slots[..], free, 0);
    }

    // grow_closure_array; the doubled size is a 32-bit number.  When it wraps around, the source goes on to copy the
    // closures to where there is no room for them.
    method Grow() returns (fits: bool)
      requires Valid()
      modifies this
      ensures fits == (old(slots.Length) < 0x8000_0000) && Valid() && (!fits ==> unchanged(this))
      ensures fits ==> fresh(slots) && slots.Length == 2 * old(slots.Length) && Calls() == old(Calls())
      ensures fits ==> firstFree == old(slots.Length) + 1
      ensures fits ==> |free| == old(slots.Length + |free|) && free[old(slots.Length)..] == old(free)
      ensures fits ==> forall i :: 0 <= i < old(slots.Length) ==> free[i] == old(slots.Length) + 1 + i
    {
      hide Threaded, CallsIn;
      var size := slots.Length;
      fits := 2 * size % 0x1_0000_0000 >= size;
      if !fits { return; }
      var more := new Slot<C>[2 * size](_ => Free(0));
      var k := 0;
      while k < size
        invariant 0 <= k <= size && unchanged(this) && slots[..] == old(slots[..])
        invariant more[..k] == slots[..k]
      {
        more[k] := slots[k];
        k := k + 1;
      }
      var i := size;
      while i < 2 * size - 1
        invariant size <= i <= 2 * size - 1 && unchanged(this) && slots[..] == old(slots[..])
        invariant more[..size] == slots[..]
        invariant forall j :: size <= j < i ==> more[j] == Free(j + 2)
      {
        more[i] := Free(i + 2);
        i := i + 1;
      }
      more[i] := Free(firstFree);
      ghost var added: seq<nat> := seq(size, j requires j >= 0 => size + 1 + j);
      Grown(slots[..], firstFree, free, more[..], added);
      firstFree := size + 1;
      slots := more;
      free := added + free;
    }

    // The id part of enqueue_request.
    method Allocate(call: C) returns (fits: bool, id: nat)
      requires Valid()
      modifies this, slots
      ensures Valid() && (slots == old(slots) || fresh(slots))
      ensures fits == (old(free) != [] || old(slots.Length) < 0x8000_0000)
      ensures !fits ==> unchanged(this) && unchanged(slots)
      ensures fits ==> id !in old(Calls()) && 1 <= id <= slots.Length < 0x1_0000_0000
      ensures fits ==> Calls() == old(Calls())[id := call]
      ensures fits && old(free) != [] ==> slots.Length == old(slots.Length) && [id] + free == old(free)
      ensures fits && old(free) == [] ==> slots.Length == 2 * old(slots.Length) && id == old(slots.Length) + 1
    {
      hide CallsIn;
      fits, id := true, 0;
      assert firstFree == LinkAt(free, 0);
      assert free != [] ==> Leads(slots[..], free, 0);
      hide Threaded, Leads;
      if firstFree == 0 {
        fits := Grow();
        if !fits { return; }
      }
      Popped(slots[..], firstFree, free, call);
      id := firstFree;
      firstFree := slots[id - 1].next;
      ghost var were := slots[..];
      slots[id - 1] := Waiting(call);
      assert slots[..] == were[id - 1 := Waiting(call)];
      free := free[1..];
    }

    // What follows a reply: the closure is taken and its id goes to the front of the free list.
    method Release(id: nat) returns (call: C)
      requires Valid() && id in Calls()
      modifies this, slots
      ensures Valid() && slots == old(slots)
      ensures call == old(Calls())[id] && Calls() == old(Calls()) - {id}
      ensures free == [id] + old(free)
    {
      hide Threaded;
      assert Holds(slots[..], id);
      Pushed(slots[..], firstFree, free, id);
      ghost var were := slots[..];
      call := slots[id - 1].call;
      slots[id - 1] := Free(firstFree);
      assert slots[..] == were[id - 1 := Free(firstFree)];
      hide CallsIn;
      firstFree := id;
      free := [id] + free;
    }

    // client_failed completes, in the order of their ids, the calls that still wait.
    method FailAll() returns (done: seq<Completion<C>>)
      ensures forall c :: c in done ==> c.id in Calls() && c.call == Calls()[c.id]
      ensures forall j, k :: 0 <= j < k < |done| ==> done[j].id < done[k].id
      ensures forall id :: id in Calls() ==> Listed(done, id)
    {
      hide Listed;
      done := [];
      var i := 0;
      while i < slots.Length
        invariant 0 <= i <= slots.Length
        invariant Swept(slots[..], i, done)
      {
        SweptMore(slots[..], i, done);
        if slots[i].Waiting? { done := done + [Completion(i + 1, slots[i].call)]; }
        i := i + 1;
      }
    }
  }
}
