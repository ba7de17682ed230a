/**
 * The pool allocator: blocks of items, the free items of a block threaded into a list through the items themselves.
 * New blocks go behind the first one; a block whose items are all free may be given back.
 */
module Rpool {

  // A block of items at the addresses from base on.  A link is one more than the index it leads to; 0 ends the list.
  datatype Block = Block(base: nat, total: nat, freeCount: nat, head: nat, links: seq<nat>)

  // ---- one block ----

  function Link(free: seq<nat>, i: nat): nat {
    if i < |free| then free[i] + 1 else 0
  }

  ghost predicate Distinct(s: seq<nat>) {
    forall i, j :: 0 <= i < j < |s| ==> s[i] != s[j]
  }

  // The free list runs through the items free, which are counted.
  ghost predicate BlockOk(b: Block, free: seq<nat>) {
    && 0 < b.total == |b.links|
    && b.freeCount == |free| && b.head == Link(free, 0) && Distinct(free)
    && forall i: nat :: i < |free| ==> Leads(b, free, i)
  }

  ghost predicate Leads(b: Block, free: seq<nat>, i: nat)
    requires i < |free|
  {
    free[i] < b.total && free[i] < |b.links| && b.links[free[i]] == Link(free, i + 1)
  }

  // Somebody holds the item at an address; what it contains is not the pool's business.
  ghost predicate Holds(b: Block, free: seq<nat>, a: nat) {
    b.base <= a < b.base + b.total && a - b.base !in free
  }

  // rpool_expand, for one block of n items
  method NewBlock(base: nat, n: nat) returns (b: Block)
    requires n > 0
    ensures b.base == base && b.total == b.freeCount == n && b.head != 0 && BlockOk(b, seq(n, i => i))
  {
    var links: seq<nat> := [];
    while |links| < n - 1
      invariant |links| <= n - 1 && forall i :: 0 <= i < |links| ==> links[i] == i + 2
    {
      links := links + [|links| + 2];
    }
    b := Block(base, n, n, 1, links + [0]);
    ghost var free: seq<nat> := seq(n, i => i);
    forall i: nat | i < n
      ensures Leads(b, free, i)
    {
    }
  }

  function Popped(b: Block): Block
    requires 0 < b.head <= |b.links| && b.freeCount > 0
  {
    b.(head := b.links[b.head - 1], freeCount := b.freeCount - 1)
  }

  lemma PopBlock(b: Block, free: seq<nat>)
    requires BlockOk(b, free) && b.head != 0
    ensures free != [] && b.head == free[0] + 1 <= |b.links| && b.freeCount > 0 && free[0] < b.total
    ensures BlockOk(Popped(b), free[1..])
  {
    assert Leads(b, free, 0);
    forall i: nat | i < |free| - 1
      ensures Leads(Popped(b), free[1..], i)
    {
      assert Leads(b, free, i + 1);
    }
  }

  lemma PopHolds(b: Block, c: Block, free: seq<nat>, a: nat)
    requires Distinct(free) && free != [] && free[0] < b.total && c.base == b.base && c.total == b.total
    ensures Holds(c, free[1..], a) <==> Holds(b, free, a) || a == b.base + free[0]
    ensures !Holds(b, free, b.base + free[0])
  {
    assert free[0] in free;
    FirstOnce(free);
    if b.base <= a { InRest(free, a - b.base); }
  }

  lemma FirstOnce(s: seq<nat>)
    requires Distinct(s) && s != []
    ensures s[0] !in s[1..]
  {
  }

  lemma InRest(s: seq<nat>, x: nat)
    requires s != []
    ensures x in s <==> x == s[0] || x in s[1..]
  {
    assert s == [s[0]] + s[1..];
  }

  function Pushed(b: Block, i: nat): Block
    requires i < |b.links|
  {
    b.(links := b.links[i := b.head], head := i + 1, freeCount := b.freeCount + 1)
  }

  lemma PushBlock(b: Block, free: seq<nat>, i: nat)
    requires BlockOk(b, free) && Holds(b, free, b.base + i)
    ensures i < b.total && i !in free && BlockOk(Pushed(b, i), [i] + free)
  {
    var now := [i] + free;
    forall j: nat | j < |now|
      ensures Leads(Pushed(b, i), now, j)
    {
      if j > 0 {
        assert Leads(b, free, j - 1);
        assert free[j - 1] in free;
      }
    }
  }

  lemma PushHolds(b: Block, free: seq<nat>, i: nat, a: nat)
    requires i < |b.links|
    ensures Holds(Pushed(b, i), [i] + free, a) <==> Holds(b, free, a) && a != b.base + i
  {
  }

  // ---- all blocks ----

  function TotalOf(blocks: seq<Block>): nat {
    if blocks == [] then 0 else blocks[0].total + TotalOf(blocks[1..])
  }

  function FreeOf(blocks: seq<Block>): nat {
    if blocks == [] then 0 else blocks[0].freeCount + FreeOf(blocks[1..])
  }

  lemma {:induction false} SumsAppend(a: seq<Block>, b: seq<Block>)
    ensures TotalOf(a + b) == TotalOf(a) + TotalOf(b) && FreeOf(a + b) == FreeOf(a) + FreeOf(b)
  {
    if a == [] {
      assert a + b == b;
    } else {
      SumsAppend(a[1..], b);
      assert (a + b)[1..] == a[1..] + b;
    }
  }

  lemma SumsAt(blocks: seq<Block>, k: nat)
    requires k < |blocks|
    ensures TotalOf(blocks) == TotalOf(blocks[..k]) + blocks[k].total + TotalOf(blocks[k + 1..])
    ensures FreeOf(blocks) == FreeOf(blocks[..k]) + blocks[k].freeCount + FreeOf(blocks[k + 1..])
  {
    SumsAppend(blocks[..k], blocks[k..]);
    assert blocks == blocks[..k] + blocks[k..];
  }

  // Another block at place k.
  lemma SumsChange(blocks: seq<Block>, k: nat, b: Block)
    requires k < |blocks|
    ensures TotalOf(blocks[k := b]) == TotalOf(blocks) - blocks[k].total + b.total
    ensures FreeOf(blocks[k := b]) == FreeOf(blocks) - blocks[k].freeCount + b.freeCount
  {
    SumsAt(blocks, k);
    SumsAt(blocks[k := b], k);
    assert blocks[k := b][..k] == blocks[..k] && blocks[k := b][k + 1..] == blocks[k + 1..];
  }

  ghost predicate Away(b: Block, c: Block) {
    b.base + b.total <= c.base || c.base + c.total <= b.base
  }

  // Every block is in order and has its own addresses.
  ghost predicate BlocksOk(blocks: seq<Block>, frees: seq<seq<nat>>) {
    && |blocks| == |frees|
    && (forall k :: 0 <= k < |blocks| ==> BlockOk(blocks[k], frees[k]))
    && (forall j, k :: 0 <= j < k < |blocks| ==> Away(blocks[j], blocks[k]))
  }

  ghost predicate InUse(blocks: seq<Block>, frees: seq<seq<nat>>, a: nat) {
    |blocks| == |frees| && exists k :: 0 <= k < |blocks| && Holds(blocks[k], frees[k], a)
  }

  // The address is one of the block.
  predicate Inside(b: Block, a: nat) {
    b.base <= a < b.base + b.total
  }

  // Whether an address is in use is decided by the block that it lies in.
  lemma InUseAt(blocks: seq<Block>, frees: seq<seq<nat>>, k: nat, a: nat)
    requires BlocksOk(blocks, frees) && k < |blocks| && Inside(blocks[k], a)
    ensures InUse(blocks, frees, a) <==> Holds(blocks[k], frees[k], a)
  {
    forall j | 0 <= j < |blocks| && j != k
      ensures !Holds(blocks[j], frees[j], a)
    {
      assert if j < k then Away(blocks[j], blocks[k]) else Away(blocks[k], blocks[j]);
    }
  }

  // A block changes what it holds, not where it is.
  lemma BlockChanges(blocks: seq<Block>, frees: seq<seq<nat>>, k: nat, b: Block, free: seq<nat>)
    requires BlocksOk(blocks, frees) && k < |blocks|
    requires BlockOk(b, free) && b.base == blocks[k].base && b.total == blocks[k].total
    ensures BlocksOk(blocks[k := b], frees[k := free])
  {
    hide BlockOk;
  }

  lemma OthersStay(blocks: seq<Block>, frees: seq<seq<nat>>, k: nat, b: Block, free: seq<nat>, a: nat)
    requires BlocksOk(blocks, frees) && k < |blocks| && b.base == blocks[k].base && b.total == blocks[k].total
    requires !Inside(b, a)
    ensures InUse(blocks[k := b], frees[k := free], a) <==> InUse(blocks, frees, a)
  {
    hide BlockOk;
    var now, less := blocks[k := b], frees[k := free];
    if InUse(blocks, frees, a) {
      var j :| 0 <= j < |blocks| && Holds(blocks[j], frees[j], a);
      assert Holds(now[j], less[j], a);
    }
    if InUse(now, less, a) {
      var j :| 0 <= j < |now| && Holds(now[j], less[j], a);
      assert Holds(blocks[j], frees[j], a);
    }
  }

  // Taking the first free item of a block.
  lemma TakenFrom(blocks: seq<Block>, frees: seq<seq<nat>>, k: nat)
    requires BlocksOk(blocks, frees) && k < |blocks| && blocks[k].head != 0
    ensures var b := blocks[k];
            var item := b.base + b.head - 1;
            && 0 < b.head <= |b.links| && b.freeCount > 0 && frees[k] != []
            && BlocksOk(blocks[k := Popped(b)], frees[k := frees[k][1..]])
            && !InUse(blocks, frees, item)
            && forall a :: InUse(blocks[k := Popped(b)], frees[k := frees[k][1..]], a) <==>
              InUse(blocks, frees, a) || a == item
  {
    var b, free := blocks[k], frees[k];
    PopBlock(b, free);
    var now, less := blocks[k := Popped(b)], frees[k := free[1..]];
    BlockChanges(blocks, frees, k, Popped(b), free[1..]);
    hide BlockOk;
    InUseAt(blocks, frees, k, b.base + free[0]);
    PopHolds(b, Popped(b), free, b.base + free[0]);
    forall a: nat
      ensures InUse(now, less, a) <==> InUse(blocks, frees, a) || a == b.base + free[0]
    {
      if Inside(b, a) {
        InUseAt(blocks, frees, k, a);
        InUseAt(now, less, k, a);
        PopHolds(b, Popped(b), free, a);
      } else {
        OthersStay(blocks, frees, k, Popped(b), free[1..], a);
      }
    }
  }

  // Giving an item back to its block.
  lemma GivenTo(blocks: seq<Block>, frees: seq<seq<nat>>, k: nat, item: nat)
    requires BlocksOk(blocks, frees) && k < |blocks| && Inside(blocks[k], item) && InUse(blocks, frees, item)
    ensures var b := blocks[k];
            var i: nat := item - b.base;
            && i < |b.links|
            && BlocksOk(blocks[k := Pushed(b, i)], frees[k := [i] + frees[k]])
            && forall a :: InUse(blocks[k := Pushed(b, i)], frees[k := [i] + frees[k]], a) <==>
              InUse(blocks, frees, a) && a != item
  {
    var b, free := blocks[k], frees[k];
    var i: nat := item - b.base;
    InUseAt(blocks, frees, k, item);
    PushBlock(b, free, i);
    var now, more := blocks[k := Pushed(b, i)], frees[k := [i] + free];
    BlockChanges(blocks, frees, k, Pushed(b, i), [i] + free);
    hide BlockOk;
    forall a: nat
      ensures InUse(now, more, a) <==> InUse(blocks, frees, a) && a != item
    {
      if Inside(b, a) {
        InUseAt(blocks, frees, k, a);
        InUseAt(now, more, k, a);
        PushHolds(b, free, i, a);
      } else {
        OthersStay(blocks, frees, k, Pushed(b, i), [i] + free, a);
      }
    }
  }

  // A new block with nothing in use goes to place k.
  lemma BlockAdded(blocks: seq<Block>, frees: seq<seq<nat>>, k: nat, b: Block, free: seq<nat>)
    requires BlocksOk(blocks, frees) && k <= |blocks| && BlockOk(b, free)
    requires forall j :: 0 <= j < |blocks| ==> Away(blocks[j], b)
    requires forall a :: !Holds(b, free, a)
    ensures var now, more := blocks[..k] + [b] + blocks[k..], frees[..k] + [free] + frees[k..];
            BlocksOk(now, more) && forall a :: InUse(now, more, a) <==> InUse(blocks, frees, a)
  {
    hide BlockOk, Holds;
    var now, more := blocks[..k] + [b] + blocks[k..], frees[..k] + [free] + frees[k..];
    assert now[k] == b && more[k] == free;
    forall j | 0 <= j < |now| && j != k
      ensures now[j] == blocks[if j < k then j else j - 1] && more[j] == frees[if j < k then j else j - 1]
    {
    }
    forall a: nat
      ensures InUse(now, more, a) <==> InUse(blocks, frees, a)
    {
      if InUse(blocks, frees, a) {
        var j :| 0 <= j < |blocks| && Holds(blocks[j], frees[j], a);
        assert Holds(now[if j < k then j else j + 1], more[if j < k then j else j + 1], a);
      }
      if InUse(now, more, a) {
        var j :| 0 <= j < |now| && Holds(now[j], more[j], a);
        assert Holds(blocks[if j < k then j else j - 1], frees[if j < k then j else j - 1], a);
      }
    }
  }

  // A block of which nothing is in use goes away.
  lemma BlockDropped(blocks: seq<Block>, frees: seq<seq<nat>>, k: nat)
    requires BlocksOk(blocks, frees) && k < |blocks| && blocks[k].freeCount == blocks[k].total
    ensures var now, less := blocks[..k] + blocks[k + 1..], frees[..k] + frees[k + 1..];
            BlocksOk(now, less) && forall a :: InUse(now, less, a) <==> InUse(blocks, frees, a)
  {
    AllFree(blocks[k], frees[k]);
    hide BlockOk, Holds;
    var now, less := blocks[..k] + blocks[k + 1..], frees[..k] + frees[k + 1..];
    forall j | 0 <= j < |now|
      ensures now[j] == blocks[if j < k then j else j + 1] && less[j] == frees[if j < k then j else j + 1]
    {
    }
    forall a: nat
      ensures InUse(now, less, a) <==> InUse(blocks, frees, a)
    {
      UsedElsewhere(blocks, frees, k, a);
    }
  }

  lemma UsedElsewhere(blocks: seq<Block>, frees: seq<seq<nat>>, k: nat, a: nat)
    requires |blocks| == |frees| && k < |blocks| && !Holds(blocks[k], frees[k], a)
    ensures InUse(blocks[..k] + blocks[k + 1..], frees[..k] + frees[k + 1..], a) <==> InUse(blocks, frees, a)
  {
    hide Holds;
    var now, less := blocks[..k] + blocks[k + 1..], frees[..k] + frees[k + 1..];
    if InUse(blocks, frees, a) {
      var j :| 0 <= j < |blocks| && Holds(blocks[j], frees[j], a);
      var i := if j < k then j else j - 1;
      assert now[i] == blocks[j] && less[i] == frees[j];
    }
    if InUse(now, less, a) {
      var j :| 0 <= j < |now| && Holds(now[j], less[j], a);
      var i := if j < k then j else j + 1;
      assert now[j] == blocks[i] && less[j] == frees[i];
    }
  }

  // A list of as many different items as the block has runs through all of them.
  lemma AllFree(b: Block, free: seq<nat>)
    requires BlockOk(b, free) && b.freeCount == b.total
    ensures forall a :: !Holds(b, free, a)
  {
    forall i: nat | i < |free|
      ensures free[i] < b.total
    {
      assert Leads(b, free, i);
    }
    Pigeonhole(free, b.total);
  }

  ghost function Upto(n: nat): (r: set<nat>)
    ensures |r| == n && forall x: nat :: x in r <==> x < n
  {
    if n == 0 then {} else Upto(n - 1) + {n - 1}
  }

  ghost function ToSet(s: seq<nat>): set<nat> {
    set x | x in s
  }

  lemma {:induction false} ToSetCount(s: seq<nat>)
    requires Distinct(s)
    ensures |ToSet(s)| == |s|
  {
    if s == [] {
      assert ToSet(s) == {};
    } else {
      ToSetCount(s[1..]);
      FirstOnce(s);
      assert s == [s[0]] + s[1..];
      assert ToSet(s) == {s[0]} + ToSet(s[1..]);
    }
  }

  lemma Pigeonhole(s: seq<nat>, n: nat)
    requires Distinct(s) && |s| == n && forall i: nat :: i < |s| ==> s[i] < n
    ensures forall x: nat :: x < n ==> x in s
  {
    var mine, all := ToSet(s), Upto(n);
    ToSetCount(s);
    assert mine <= all;
    SameSize(mine, all);
    forall x: nat | x < n
      ensures x in s
    {
      assert x in all;
      assert x in mine;
    }
  }

  lemma SameSize(a: set<nat>, b: set<nat>)
    requires a <= b && |a| == |b|
    ensures a == b
  {
    assert |b - a| == |b| - |a|;
    assert b == a + (b - a);
  }

  // ---- the pool ----

  datatype Option<T> = None | Some(value: T)

  // The room that a new block needs.
  function Room(base: nat, n: nat): Block {
    Block(base, n, 0, 0, [])
  }

  lemma {:induction false} FreeSum(blocks: seq<Block>, frees: seq<seq<nat>>)
    requires |blocks| == |frees| && forall k :: 0 <= k < |blocks| ==> BlockOk(blocks[k], frees[k])
    ensures FreeOf(blocks) == 0 <==> forall k :: 0 <= k < |blocks| ==> blocks[k].head == 0
  {
    if blocks != [] {
      FreeSum(blocks[1..], frees[1..]);
      assert BlockOk(blocks[0], frees[0]);
      assert forall k :: 0 < k < |blocks| ==> blocks[k] == blocks[1..][k - 1];
      assert forall k :: 0 <= k < |blocks| - 1 ==> blocks[1..][k] == blocks[k + 1];
    }
  }

  class Pool {
    const adjust: nat
    var blocks: seq<Block>
    var capacity: int
    var totalFree: int
    ghost var frees: seq<seq<nat>>

    ghost predicate Valid()
      reads this
    {
      && adjust > 0 && blocks != [] && BlocksOk(blocks, frees)
      && capacity == TotalOf(blocks) && totalFree == FreeOf(blocks)
    }

    ghost predicate Held(a: nat)
      reads this
    {
      InUse(blocks, frees, a)
    }

    // rpool_create
    constructor (initial: nat, adjust: nat, base: nat)
      requires initial > 0 && adjust > 0
      ensures Valid() && this.adjust == adjust && capacity == totalFree == initial
      ensures forall a :: !Held(a)
    {
      var b := NewBlock(base, initial);
      this.adjust := adjust;
      blocks, frees := [b], [seq(initial, i => i)];
      capacity, totalFree := initial, initial;
      new;
      NothingHeld(b, frees[0]);
      OneSum(b);
    }

    // rpool_get; memory says whether a new block can be allocated, base where.
    method Get(memory: bool, base: nat) returns (item: Option<nat>)
      requires Valid() && forall j :: 0 <= j < |blocks| ==> Away(blocks[j], Room(base, adjust))
      modifies this
      ensures Valid()
      ensures item == None <==> old(totalFree) == 0 && !memory
      ensures item == None ==> unchanged(this)
      ensures item.Some? ==> !old(Held(item.value)) && forall a :: Held(a) <==> old(Held(a)) || a == item.value
      ensures old(totalFree) > 0 ==> capacity == old(capacity)
      ensures old(totalFree) == 0 && memory ==> capacity == old(capacity) + adjust
    {
      hide BlockOk, TotalOf, FreeOf, InUse;
      FreeSum(blocks, frees);
      var k: nat := 0;
      while k < |blocks| && blocks[k].head == 0
        invariant k <= |blocks| && forall j :: 0 <= j < k ==> blocks[j].head == 0
      {
        k := k + 1;
      }
      if k == |blocks| {
        if !memory { return None; }
        k := 1;
        AddBlock(base);
      }
      TakenFrom(blocks, frees, k);
      SumsChange(blocks, k, Popped(blocks[k]));
      item := Some(blocks[k].base + blocks[k].head - 1);
      blocks := blocks[k := Popped(blocks[k])];
      frees := frees[k := frees[k][1..]];
      totalFree := totalFree - 1;
    }

    // The part of rpool_get that puts a new block behind the first one.
    method AddBlock(base: nat)
      requires Valid() && forall j :: 0 <= j < |blocks| ==> Away(blocks[j], Room(base, adjust))
      modifies this
      ensures Valid() && |blocks| > 1 && blocks[1].head != 0
      ensures forall a :: Held(a) <==> old(Held(a))
      ensures capacity == old(capacity) + adjust
    {
      var b := NewBlock(base, adjust);
      ghost var free: seq<nat> := seq(adjust, i => i);
      NothingHeld(b, free);
      hide BlockOk, TotalOf, FreeOf, InUse, Holds;
      BlockAdded(blocks, frees, 1, b, free);
      SumsAppend(blocks[..1] + [b], blocks[1..]);
      SumsAppend(blocks[..1], [b]);
      SumsAppend(blocks[..1], blocks[1..]);
      assert blocks == blocks[..1] + blocks[1..];
      OneSum(b);
      capacity := capacity + adjust;
      totalFree := totalFree + adjust;
      blocks := blocks[..1] + [b] + blocks[1..];
      frees := frees[..1] + [free] + frees[1..];
    }

    // rpool_free; an address that is in no block is refused.
    method Free(a: nat) returns (code: int, released: bool)
      requires Valid() && (Held(a) || forall j :: 0 <= j < |blocks| ==> !Inside(blocks[j], a))
      modifies this
      ensures Valid()
      ensures code == -1 <==> !old(Held(a))
      ensures code == -1 ==> unchanged(this) && !released
      ensures code != -1 ==> code == 0 && forall x :: Held(x) <==> old(Held(x)) && x != a
      // a block goes away exactly when it is not the first, all of it is free and more than that is free elsewhere
      ensures forall k :: 0 <= k < |old(blocks)| && Inside(old(blocks)[k], a) ==>
                var b := old(blocks)[k];
                && (released <==> k > 0 && b.freeCount + 1 == b.total && old(totalFree) + 1 - b.total > b.total)
                && (released ==> blocks == old(blocks)[..k] + old(blocks)[k + 1..] && totalFree > b.total)
                && (!released ==> capacity == old(capacity) && |blocks| == |old(blocks)|)
    {
      hide BlockOk, TotalOf, FreeOf;
      released := false;
      var k: nat := 0;
      while k < |blocks| && !Inside(blocks[k], a)
        invariant k <= |blocks| && forall j :: 0 <= j < k ==> !Inside(blocks[j], a)
      {
        k := k + 1;
      }
      HeldInside(a);
      if k == |blocks| { return -1, false; }
      assert forall j :: 0 <= j < |blocks| && Inside(blocks[j], a) ==> j == k;
      hide InUse, Holds;
      code := 0;
      GivenTo(blocks, frees, k, a);
      var i: nat := a - blocks[k].base;
      SumsChange(blocks, k, Pushed(blocks[k], i));
      ghost var was := blocks;
      blocks := blocks[k := Pushed(blocks[k], i)];
      frees := frees[k := [i] + frees[k]];
      totalFree := totalFree + 1;
      if k != 0 && totalFree > 2 * blocks[k].freeCount && blocks[k].total == blocks[k].freeCount {
        assert blocks[..k] + blocks[k + 1..] == was[..k] + was[k + 1..];
        released := true;
        DropBlock(k);
      }
    }

    // The part of rpool_free that gives a block back.
    method DropBlock(k: nat)
      requires Valid() && 0 < k < |blocks| && blocks[k].freeCount == blocks[k].total
      modifies this
      ensures Valid() && blocks == old(blocks)[..k] + old(blocks)[k + 1..]
      ensures forall a :: Held(a) <==> old(Held(a))
      ensures totalFree == old(totalFree) - old(blocks)[k].total
    {
      hide BlockOk, TotalOf, FreeOf, InUse;
      BlockDropped(blocks, frees, k);
      SumsAt(blocks, k);
      SumsAppend(blocks[..k], blocks[k + 1..]);
      capacity := capacity - blocks[k].total;
      totalFree := totalFree - blocks[k].total;
      blocks := blocks[..k] + blocks[k + 1..];
      frees := frees[..k] + frees[k + 1..];
    }

    lemma HeldInside(a: nat)
      requires Valid()
      ensures Held(a) ==> exists j :: 0 <= j < |blocks| && Inside(blocks[j], a)
    {
      if Held(a) {
        var j :| 0 <= j < |blocks| && Holds(blocks[j], frees[j], a);
        assert Inside(blocks[j], a);
      }
    }
  }

  lemma NothingHeld(b: Block, free: seq<nat>)
    requires free == seq(b.total, i => i)
    ensures forall a: nat :: !Holds(b, free, a)
  {
    forall a: nat
      ensures !Holds(b, free, a)
    {
      if Inside(b, a) { assert free[a - b.base] == a - b.base; }
    }
  }

  lemma OneSum(b: Block)
    ensures TotalOf([b]) == b.total && FreeOf([b]) == b.freeCount
  {
    assert [b][1..] == [];
  }
}
