/**
 * The data buffer: a chain of fragments of fixed size that behaves like a queue of bytes.
 */
module DataBuffer {
  import opened Bytes

  const FRAGMENT_SIZE: nat := 4096

  class Fragment {
    var data: seq<Byte>
    var start: nat
    var length: nat
    var next: Fragment?

    // new_native_fragment
    constructor ()
      ensures start == length == 0 && next == null && |data| == FRAGMENT_SIZE
    {
      data := seq(FRAGMENT_SIZE, i => 0);
      start := 0;
      length := 0;
      next := null;
    }

    ghost predicate Holds(p: seq<Byte>)
      reads this
    {
      start + length <= |data| == FRAGMENT_SIZE && p == data[start..start + length]
    }

    lemma Front(p: seq<Byte>, n: nat)
      requires Holds(p) && n <= |p|
      ensures length == |p| && data[start..start + n] == p[..n]
    {
      assert data[start..start + length][..n] == data[start..start + n];
    }

    // Takes out the first n bytes.
    method Cut(n: nat, ghost p: seq<Byte>)
      requires Holds(p) && n <= length
      modifies this`start, this`length
      ensures n <= |p| && Holds(p[n..])
    {
      start := start + n;
      length := length - n;
    }
  }

  ghost function Join(parts: seq<seq<Byte>>): seq<Byte> {
    if parts == [] then [] else parts[0] + Join(parts[1..])
  }

  lemma JoinFirst(p: seq<Byte>, rest: seq<seq<Byte>>)
    ensures Join([p] + rest) == p + Join(rest)
  {
    assert ([p] + rest)[1..] == rest;
  }

  lemma {:induction false} JoinAppend(a: seq<seq<Byte>>, b: seq<seq<Byte>>)
    ensures Join(a + b) == Join(a) + Join(b)
  {
    if a == [] {
      assert a + b == b;
    } else {
      hide Join;
      JoinAppend(a[1..], b);
      JoinFirst(a[0], a[1..]);
      JoinFirst(a[0], a[1..] + b);
      Regroup(a[0], Join(a[1..]), Join(b));
      assert a == [a[0]] + a[1..];
      assert a + b == [a[0]] + (a[1..] + b);
    }
  }

  lemma JoinOne(p: seq<Byte>)
    ensures Join([p]) == p
  {
    assert [p][1..] == [];
  }

  // The last part grows.
  lemma JoinGrows(parts: seq<seq<Byte>>, more: seq<Byte>)
    requires parts != []
    ensures Join(parts[|parts| - 1 := parts[|parts| - 1] + more]) == Join(parts) + more
  {
    var n := |parts| - 1;
    JoinAppend(parts[..n], [parts[n]]);
    JoinAppend(parts[..n], [parts[n] + more]);
    JoinOne(parts[n]);
    JoinOne(parts[n] + more);
    assert parts == parts[..n] + [parts[n]];
    assert parts[n := parts[n] + more] == parts[..n] + [parts[n] + more];
  }

  // The first part loses its first bytes.
  lemma JoinCut(parts: seq<seq<Byte>>, n: nat)
    requires parts != [] && n <= |parts[0]|
    ensures Join(parts) == parts[0][..n] + Join(parts[0 := parts[0][n..]])
  {
    assert parts[0 := parts[0][n..]][1..] == parts[1..];
    assert parts[0] == parts[0][..n] + parts[0][n..];
  }

  // Every fragment leads to the next one.
  ghost predicate Chained(frags: seq<Fragment>)
    reads frags
  {
    forall i :: 0 <= i < |frags| - 1 ==> frags[i].next == frags[i + 1]
  }

  ghost predicate Ends(frags: seq<Fragment>, first: Fragment?, last: Fragment?)
    reads frags
  {
    && (frags == [] ==> first == null && last == null)
    && (frags != [] ==> first == frags[0] && last == frags[|frags| - 1] && frags[|frags| - 1].next == null)
  }

  ghost predicate Different(frags: seq<Fragment>) {
    forall i, j :: 0 <= i < j < |frags| ==> frags[i] != frags[j]
  }

  ghost predicate Hold(frags: seq<Fragment>, parts: seq<seq<Byte>>)
    reads frags
  {
    |frags| == |parts| && forall i :: 0 <= i < |frags| ==> frags[i].Holds(parts[i])
  }

  ghost predicate Apart(a: seq<Fragment>, b: seq<Fragment>) {
    forall i, j :: 0 <= i < |a| && 0 <= j < |b| ==> a[i] != b[j]
  }

  lemma ChainedAppend(a: seq<Fragment>, b: seq<Fragment>)
    requires Chained(a) && Chained(b) && (a != [] && b != [] ==> a[|a| - 1].next == b[0])
    ensures Chained(a + b)
  {
    forall i | 0 <= i < |a + b| - 1
      ensures (a + b)[i].next == (a + b)[i + 1]
    {
      if i >= |a| { assert b[i - |a|].next == b[i - |a| + 1]; }
    }
  }

  lemma DifferentAppend(a: seq<Fragment>, b: seq<Fragment>)
    requires Different(a) && Different(b) && Apart(a, b)
    ensures Different(a + b)
  {
  }

  lemma HoldAppend(a: seq<Fragment>, p: seq<seq<Byte>>, b: seq<Fragment>, q: seq<seq<Byte>>)
    requires Hold(a, p) && Hold(b, q)
    ensures Hold(a + b, p + q)
  {
  }

  class Buffer {
    var first: Fragment?
    var last: Fragment?
    var size: nat
    ghost var frags: seq<Fragment>
    ghost var parts: seq<seq<Byte>>

    // The chain is in order; size may be behind.
    ghost predicate Linked()
      reads this, frags
    {
      Chained(frags) && Ends(frags, first, last) && Different(frags) && Hold(frags, parts)
    }

    ghost predicate Valid()
      reads this, frags
    {
      Linked() && size == |Contents()|
    }

    ghost function Contents(): seq<Byte>
      reads this
    {
      Join(parts)
    }

    // protobuf_c_rpc_data_buffer_init
    constructor ()
      ensures Valid() && frags == [] && Contents() == []
    {
      first := null;
      last := null;
      size := 0;
      frags := [];
      parts := [];
    }

    // Puts an empty fragment at the end of the chain.
    method Extend() returns (f: Fragment)
      requires Linked()
      modifies this`first, this`last, this`frags, this`parts, SetOf(frags)
      ensures Linked() && fresh(f) && SetOf(frags) == old(SetOf(frags)) + {f}
      ensures parts == old(parts) + [[]] && Contents() == old(Contents())
      ensures last == f && f.start == f.length == 0
    {
      f := new Fragment();
      JoinAppend(parts, [[]]);
      JoinOne([]);
      SetOfMore(frags, f);
      hide Join, Linked, SetOf;
      assert f !in frags;
      AddLast(f, []);
    }

    lemma LastFits()
      requires Linked() && last != null
      ensures last.start + last.length <= FRAGMENT_SIZE
    {
      assert frags[|frags| - 1].Holds(parts[|frags| - 1]);
    }

    // Copies bytes that fit behind those of the last fragment.
    method Fill(chunk: seq<Byte>)
      requires Linked() && last != null && last.start + last.length + |chunk| <= FRAGMENT_SIZE
      modifies this`parts, SetOf(frags)
      ensures Linked() && Contents() == old(Contents()) + chunk && Room() == old(Room()) - |chunk|
    {
      hide Join;
      var end := last.start + last.length;
      ghost var n := |frags| - 1;
      JoinGrows(parts, chunk);
      last.data := last.data[..end] + chunk + last.data[end + |chunk|..];
      last.length := last.length + |chunk|;
      parts := parts[n := parts[n] + chunk];
    }

    // The bytes that still fit into the last fragment, the first one of an empty buffer included.
    ghost function Room(): int
      reads this, last
    {
      if last == null then FRAGMENT_SIZE else FRAGMENT_SIZE - last.start - last.length
    }

    // Copies as much as fits into the last fragment.  A round that finds it full adds a new one and copies nothing.
    method AppendSome(rest: seq<Byte>) returns (avail: nat)
      requires Linked() && rest != []
      modifies this`first, this`last, this`frags, this`parts, SetOf(frags)
      ensures avail == (if old(Room()) < |rest| then old(Room()) else |rest|) &&
        (avail == 0 ==> Room() == FRAGMENT_SIZE)
      ensures old(last) == null ==> avail == if |rest| < 4096 then |rest| else 4096
      ensures Linked() && Contents() == old(Contents()) + rest[..avail]
      ensures fresh(SetOf(frags) - old(SetOf(frags)))
    {
      hide Join, Linked, SetOf;
      if last == null {
        var f := Extend();
        avail := FRAGMENT_SIZE - last.start - last.length;
      } else {
        LastFits();
        avail := FRAGMENT_SIZE - last.start - last.length;
        if avail <= 0 { var f := Extend(); }
      }
      if avail > |rest| { avail := |rest|; }
      LastFits();
      Fill(rest[..avail]);
    }

    // protobuf_c_rpc_data_buffer_append
    method Append(data: seq<Byte>)
      requires Valid()
      modifies this, SetOf(frags)
      ensures Valid() && Contents() == old(Contents()) + data
      ensures fresh(SetOf(frags) - old(SetOf(frags)))
    {
      SetSize(size + |data|);
      hide Join, Linked, SetOf, Makes;
      var rest := data;
      ghost var all := Contents() + data;
      MakesAppended(Contents(), data);
      while |rest| > 0
        invariant Linked() && size == old(size) + |data|
        invariant Makes(Contents(), rest, all)
        invariant fresh(SetOf(frags) - old(SetOf(frags)))
        decreases |rest|, Room() <= 0
      {
        ghost var before := Contents();
        var avail := AppendSome(rest);
        MakesMore(before, rest, avail, all);
        rest := rest[avail..];
      }
      MakesAll(Contents(), rest, all);
    }

    // Takes the first fragment off the chain.
    method DropFirst()
      requires Linked() && first != null
      modifies this`first, this`last, this`frags, this`parts
      ensures Linked() && frags == old(frags)[1..] && parts == old(parts)[1..]
      ensures old(Contents()) == old(parts)[0] + Contents() && SetOf(frags) <= old(SetOf(frags)) &&
        |frags| < |old(frags)|
    {
      first := first.next;
      if first == null { last := null; }
      frags := frags[1..];
      parts := parts[1..];
    }

    // Takes the first n bytes out of the first fragment.
    method CutFirst(n: nat)
      requires Linked() && first != null && n <= first.length
      modifies this`parts, first
      ensures Linked() && old(Contents()) == old(parts)[0][..n] + Contents()
      ensures |old(parts)[0]| == old(first.length)
    {
      JoinCut(parts, n);
      hide Join, SetOf;
      assert forall i :: 0 < i < |frags| ==> frags[i] != first;
      first.Cut(n, parts[0]);
      parts := parts[0 := parts[0][n..]];
    }

    // The first fragment and its part.
    lemma FirstPart()
      requires Linked() && first != null
      ensures frags != [] && parts != [] && frags[0] == first && first.Holds(parts[0]) && first in SetOf(frags)
      ensures Join(parts) == parts[0] + Join(parts[1..])
    {
    }

    // Takes up to left bytes out of the first fragment.
    method ReadSome(left: nat) returns (chunk: seq<Byte>)
      requires Linked() && first != null
      modifies this`first, this`last, this`frags, this`parts, SetOf(frags)
      ensures Linked() && old(Contents()) == chunk + Contents() && |chunk| <= left
      ensures SetOf(frags) <= old(SetOf(frags)) &&
        (|frags| < |old(frags)| || (|frags| == |old(frags)| && |chunk| == left))
    {
      hide Join, Linked, SetOf;
      FirstPart();
      ghost var p := parts[0];
      if first.length <= left {
        chunk := first.data[first.start..first.start + first.length];
        DropFirst();
      } else {
        chunk := first.data[first.start..first.start + left];
        CutFirst(left);
        assert chunk == p[..left];
      }
    }

    // protobuf_c_rpc_data_buffer_read
    method Read(max: nat) returns (data: seq<Byte>)
      requires Valid()
      modifies this, SetOf(frags)
      ensures Valid() && |data| == (if max < old(size) then max else old(size))
      ensures old(Contents()) == data + Contents()
      ensures SetOf(frags) <= old(SetOf(frags))
    {
      hide Join, Linked, SetOf, Makes;
      var left: nat := max;
      data := [];
      MakesNothing(Contents());
      while left > 0 && first != null
        invariant Linked() && size == old(size)
        invariant Makes(data, Contents(), old(Contents())) && |data| + left == max
        invariant SetOf(frags) <= old(SetOf(frags))
        decreases |frags|, left
      {
        var chunk := ReadSome(left);
        MakesMoved(data, chunk, Contents(), old(Contents()));
        data := data + chunk;
        left := left - |chunk|;
      }
      MakesAll(data, Contents(), old(Contents()));
      if left > 0 { NothingLeft(); }
      SetSize(size - |data|);
    }

    lemma NothingLeft()
      requires Linked() && first == null
      ensures Contents() == [] && frags == []
    {
    }

    // Drops up to left bytes of the first fragment.
    method DiscardSome(left: nat) returns (n: nat)
      requires Linked() && first != null
      modifies this`first, this`last, this`frags, this`parts, SetOf(frags)
      ensures Linked() && n <= |old(Contents())| && n <= left && Contents() == old(Contents())[n..]
      ensures SetOf(frags) <= old(SetOf(frags)) && (|frags| < |old(frags)| || (|frags| == |old(frags)| && n == left))
    {
      hide Join, Linked, SetOf;
      FirstPart();
      if first.length <= left {
        n := first.length;
        DropFirst();
      } else {
        n := left;
        CutFirst(left);
      }
    }

    // protobuf_c_rpc_data_buffer_discard
    method Discard(max: nat) returns (count: nat)
      requires Valid()
      modifies this, SetOf(frags)
      ensures Valid() && count == (if max < old(size) then max else old(size))
      ensures Contents() == old(Contents())[count..]
      ensures SetOf(frags) <= old(SetOf(frags))
    {
      hide Join, Linked, SetOf;
      var left: nat := max;
      count := 0;
      while left > 0 && first != null
        invariant Linked() && size == old(size)
        invariant count <= |old(Contents())| && Contents() == old(Contents())[count..] && count + left == max
        invariant SetOf(frags) <= old(SetOf(frags))
        decreases |frags|, left
      {
        var n := DiscardSome(left);
        assert old(Contents())[count..][n..] == old(Contents())[count + n..];
        count := count + n;
        left := left - n;
      }
      if left > 0 { NothingLeft(); }
      SetSize(size - count);
    }

    // protobuf_c_rpc_data_buffer_peek
    method Peek(max: nat) returns (data: seq<Byte>)
      requires Valid()
      ensures data == Contents()[..if max < size then max else size]
    {
      hide Join, Chained, Different, Buffer.Linked, Makes;
      var left: nat := max;
      WholeChain();
      var at := first;
      data := [];
      ghost var k: nat := 0;
      MakesNothing(Contents());
      while left > 0 && at != null
        invariant k <= |frags| && at == (if k < |frags| then frags[k] else null)
        invariant Makes(data, Join(parts[k..]), Contents()) && |data| + left == max
        decreases |frags| - k, left
      {
        PartAt(k);
        ghost var part := parts[k];
        if at.length <= left {
          MakesMoved(data, part, Join(parts[k + 1..]), Contents());
          data := data + at.data[at.start..at.start + at.length];
          left := left - at.length;
          at := at.next;
          k := k + 1;
        } else {
          MakesFront(data, part, Join(parts[k + 1..]), left, Contents());
          at.Front(part, left);
          data := data + at.data[at.start..at.start + left];
          return;
        }
      }
      if left > 0 { JoinNone(parts[k..]); }
      MakesFirst(data, Join(parts[k..]), Contents());
    }

    lemma WholeChain()
      requires Linked()
      ensures parts[0..] == parts && first == if frags == [] then null else frags[0]
      ensures |parts| == |frags| && (frags == [] ==> Join(parts) == [])
    {
    }

    lemma PartAt(k: nat)
      requires Linked() && k < |frags|
      ensures |parts| == |frags| && frags[k].Holds(parts[k]) && Join(parts[k..]) == parts[k] + Join(parts[k + 1..])
      ensures frags[k].next == if k + 1 < |frags| then frags[k + 1] else null
    {
      assert parts[k..][1..] == parts[k + 1..];
    }

    // Lets the last fragment lead to another one, or makes that the first one.
    method Link(to: Fragment)
      requires Linked()
      modifies this`first, SetOf(frags)
      ensures Chained(frags) && Hold(frags, parts) && first == if old(last) == null then to else old(first)
      ensures frags != [] ==> frags[|frags| - 1].next == to
    {
      if last != null {
        last.next := to;
      } else {
        first := to;
      }
    }

    // protobuf_c_rpc_data_buffer_drain: the fragments change hands.
    method Drain(src: Buffer) returns (count: nat)
      requires Valid() && src.Valid() && src != this && Apart(frags, src.frags)
      modifies this, src, SetOf(frags)
      ensures Valid() && src.Valid() && count == old(src.size)
      ensures Contents() == old(Contents()) + old(src.Contents()) && src.Contents() == []
      ensures frags == old(frags) + old(src.frags) && src.frags == []
    {
      hide Join, Linked;
      count := src.size;
      JoinAppend(parts, src.parts);
      src.Pieces();
      if src.first == null {
        src.NothingLeft();
        assert frags + src.frags == frags;
        return;
      }
      hide Chained, Different, Hold, Ends, Apart, SetOf;
      SetSize(size + src.size);
      TakeChain(src.first, src.last, src.frags, src.parts);
      src.Reset();
    }

    lemma Pieces()
      requires Linked()
      ensures Chained(frags) && Ends(frags, first, last) && Different(frags) && Hold(frags, parts)
    {
    }

    // Lets another chain follow.
    method TakeChain(from: Fragment, to: Fragment?, ghost his: seq<Fragment>, ghost p: seq<seq<Byte>>)
      requires Linked() && Apart(frags, his)
      requires Chained(his) && Ends(his, from, to) && Different(his) && Hold(his, p)
      modifies this`first, this`last, this`frags, this`parts, SetOf(frags)
      ensures Linked() && frags == old(frags) + his && parts == old(parts) + p
      ensures Contents() == old(Contents()) + Join(p)
    {
      hide Join, Different, Apart, Chained, Hold, SetOf;
      JoinAppend(parts, p);
      DifferentAppend(frags, his);
      ApartLasts(his);
      Link(from);
      ChainedAppend(frags, his);
      HoldAppend(frags, parts, his, p);
      last := to;
      frags := frags + his;
      parts := parts + p;
    }

    method SetSize(n: nat)
      requires Linked()
      modifies this`size
      ensures Linked() && size == n
    {
      size := n;
    }

    // The buffer lets go of its chain, as in protobuf_c_rpc_data_buffer_reset.
    method Reset()
      modifies this
      ensures Valid() && frags == [] && Contents() == []
    {
      size := 0;
      first, last := null, null;
      frags, parts := [], [];
    }

    // Writing to the fragments of this buffer leaves those of another one alone.
    lemma ApartLasts(his: seq<Fragment>)
      requires Apart(frags, his)
      ensures forall i :: 0 <= i < |his| ==> his[i] !in SetOf(frags)
    {
    }

    // Takes the first fragment off the chain, with no link left.
    method Unlink() returns (f: Fragment)
      requires Linked() && first != null
      modifies this`first, this`last, this`frags, this`parts, SetOf(frags)
      ensures Linked() && f == old(first) && f.next == null && frags == old(frags)[1..] && parts == old(parts)[1..]
      ensures f.Holds(old(parts)[0]) && old(Contents()) == old(parts)[0] + Contents()
    {
      f := first;
      first := f.next;
      f.next := null;
      if first == null { last := null; }
      frags := frags[1..];
      parts := parts[1..];
    }

    // Puts a fragment at the end of the chain.
    method AddLast(f: Fragment, ghost p: seq<Byte>)
      requires Linked() && f !in frags && f.next == null && f.Holds(p)
      modifies this`first, this`last, this`frags, this`parts, SetOf(frags)
      ensures Linked() && frags == old(frags) + [f] && parts == old(parts) + [p] && last == f
      ensures Contents() == old(Contents()) + p && f.start == old(f.start) && f.length == old(f.length)
    {
      JoinOne(p);
      OneFragment(f, p);
      assert f !in SetOf(frags);
      hide Join, Linked, Different, Apart, Chained, Hold, SetOf, Ends;
      TakeChain(f, f, [f], [p]);
      LastOne(f);
    }

    lemma LastOne(f: Fragment)
      requires Linked() && frags != [] && frags[|frags| - 1] == f
      ensures last == f
    {
    }

    lemma OneFragment(f: Fragment, p: seq<Byte>)
      requires f !in frags && f.next == null && f.Holds(p)
      ensures Apart(frags, [f]) && Chained([f]) && Ends([f], f, f) && Different([f]) && Hold([f], [p])
    {
    }

    // Moves the first fragment of src to the end.
    method TakeFrom(src: Buffer)
      requires Linked() && src.Linked() && src != this && Apart(frags, src.frags) && src.first != null
      modifies this`first, this`last, this`frags, this`parts, src`first, src`last, src`frags, src`parts, SetOf(frags),
        SetOf(src.frags)
      ensures Linked() && src.Linked() && Apart(frags, src.frags)
      ensures old(src.frags) != [] && frags == old(frags) + [old(src.frags)[0]] && src.frags == old(src.frags)[1..]
      ensures old(src.parts) != [] && Contents() == old(Contents()) + old(src.parts)[0]
      ensures old(src.Contents()) == old(src.parts)[0] + src.Contents()
      ensures SetOf(frags) + SetOf(src.frags) <= old(SetOf(frags) + SetOf(src.frags))
    {
      hide Join, Linked, SetOf, Apart, Different;
      src.FirstPart();
      src.Pieces();
      SetOfMore(frags, src.frags[0]);
      SetOfFirst(src.frags);
      ApartMoves(frags, src.frags);
      ghost var p := src.parts[0];
      var f := src.Unlink();
      AddLast(f, p);
    }

    // The loop of protobuf_c_rpc_data_buffer_transfer: whole fragments change hands; left bytes may still follow.
    method TransferWhole(src: Buffer, max: nat) returns (count: nat, left: nat)
      requires Linked() && src.Linked() && src != this && Apart(frags, src.frags)
      modifies this`first, this`last, this`frags, this`parts, src`first, src`last, src`frags, src`parts,
               SetOf(frags) + SetOf(src.frags)
      ensures Linked() && src.Linked() && Apart(frags, src.frags)
      ensures SetOf(frags) + SetOf(src.frags) <= old(SetOf(frags) + SetOf(src.frags))
      ensures count + left == max && count <= |old(src.Contents())| && (src.first != null ==> left < src.first.length)
      ensures Contents() == old(Contents()) + old(src.Contents())[..count]
      ensures src.Contents() == old(src.Contents())[count..]
    {
      hide Join, Linked, Apart, SetOf, Makes;
      count, left := 0, max;
      ghost var moved: seq<Byte> := [];
      MakesNothing(src.Contents());
      MakesAppended(Contents(), []);
      assert Contents() + [] == Contents();
      ghost var reach := SetOf(frags) + SetOf(src.frags);
      while src.first != null && left >= src.first.length
        invariant Linked() && src.Linked() && Apart(frags, src.frags)
        invariant Makes(moved, src.Contents(), old(src.Contents())) && Makes(old(Contents()), moved, Contents())
        invariant |moved| == count && count + left == max
        invariant SetOf(frags) + SetOf(src.frags) <= reach
        decreases |src.frags|
      {
        src.FirstPart();
        ghost var p, before := src.parts[0], Contents();
        count := count + src.first.length;
        left := left - src.first.length;
        TakeFrom(src);
        MakesMoved(moved, p, src.Contents(), old(src.Contents()));
        MakesLonger(old(Contents()), moved, before, p);
        moved := moved + p;
      }
      MakesAll(moved, src.Contents(), old(src.Contents()));
      MakesAll(old(Contents()), moved, Contents());
    }

    // Copies the first bytes of the first fragment of src.
    method CopyFrom(src: Buffer, left: nat)
      requires Valid() && src.Linked() && src != this && Apart(frags, src.frags)
      requires src.first != null && left <= src.first.length
      modifies this, src`parts, SetOf(frags), SetOf(src.frags)
      ensures Valid() && src.Linked() && src.size == old(src.size) && Apart(frags, src.frags)
      ensures left <= |old(src.Contents())| && Contents() == old(Contents()) + old(src.Contents())[..left]
      ensures src.Contents() == old(src.Contents())[left..]
    {
      hide Join, Chained, Different, Hold, Ends;
      src.FirstPart();
      ApartLasts(src.frags);
      var f := src.first;
      Append(f.data[f.start..f.start + left]);
      assert forall i :: 0 <= i < |frags| ==> frags[i] !in SetOf(src.frags);
      src.CutFirst(left);
    }

    // protobuf_c_rpc_data_buffer_transfer: what is left of the bytes asked for is copied.
    method Transfer(src: Buffer, max: nat) returns (count: nat)
      requires Valid() && src.Valid() && src != this && Apart(frags, src.frags)
      modifies this, src, SetOf(frags) + SetOf(src.frags)
      ensures Valid() && src.Valid() && Apart(frags, src.frags)
      ensures count == if max < old(src.size) then max else old(src.size)
      ensures Contents() == old(Contents()) + old(src.Contents())[..count]
      ensures src.Contents() == old(src.Contents())[count..]
    {
      hide Join, Linked, Apart, SetOf;
      var left;
      count, left := TransferWhole(src, max);
      SetSize(size + count);
      if src.first != null && left > 0 {
        ghost var mine, his := old(Contents()), old(src.Contents());
        CopyFrom(src, left);
        GoesOn(mine, his, count, left);
        count := count + left;
      } else if src.first == null {
        src.NothingLeft();
      }
      src.SetSize(src.size - count);
    }
  }

  ghost function SetOf(s: seq<Fragment>): set<Fragment> {
    set i | 0 <= i < |s| :: s[i]
  }

  lemma SetOfMore(s: seq<Fragment>, f: Fragment)
    ensures SetOf(s + [f]) == SetOf(s) + {f}
  {
    forall i | 0 <= i < |s|
      ensures s[i] in SetOf(s + [f])
    {
      assert (s + [f])[i] == s[i];
    }
    assert (s + [f])[|s|] == f;
  }

  // The first fragment of b goes to the end of a.
  lemma ApartMoves(a: seq<Fragment>, b: seq<Fragment>)
    requires Apart(a, b) && Different(b) && b != []
    ensures Apart(a + [b[0]], b[1..]) && b[0] !in a
    ensures forall i :: 0 <= i < |a| ==> a[i] !in SetOf(b)
    ensures var c := b[1..]; forall i :: 0 <= i < |c| ==> c[i] !in SetOf(a)
  {
  }

  // Fragments that were apart stay so when the second chain takes in new ones only.
  lemma ApartStill(a: seq<Fragment>, b: seq<Fragment>, was: set<Fragment>)
    requires SetOf(a) !! was && SetOf(a) !! SetOf(b) - was
    ensures Apart(a, b)
  {
    forall i, j | 0 <= i < |a| && 0 <= j < |b|
      ensures a[i] != b[j]
    {
      assert a[i] in SetOf(a) && b[j] in SetOf(b);
    }
  }

  lemma SetOfFirst(s: seq<Fragment>)
    requires s != []
    ensures SetOf(s) == {s[0]} + SetOf(s[1..])
  {
    assert s == [s[0]] + s[1..];
    forall i | 1 <= i < |s|
      ensures s[i] in SetOf(s[1..])
    {
      assert s[1..][i - 1] == s[i];
    }
  }

  // Two pieces of all.
  ghost predicate Makes(a: seq<Byte>, b: seq<Byte>, all: seq<Byte>) {
    a + b == all
  }

  // The first bytes of the second piece go over to the first.
  lemma MakesMore(a: seq<Byte>, b: seq<Byte>, n: nat, all: seq<Byte>)
    requires Makes(a, b, all) && n <= |b|
    ensures Makes(a + b[..n], b[n..], all)
  {
    assert b == b[..n] + b[n..];
  }

  lemma MakesMoved(a: seq<Byte>, chunk: seq<Byte>, rest: seq<Byte>, all: seq<Byte>)
    requires Makes(a, chunk + rest, all)
    ensures Makes(a + chunk, rest, all) && |a| + |chunk| <= |all|
  {
    Regroup(a, chunk, rest);
  }

  lemma MakesFirst(a: seq<Byte>, b: seq<Byte>, all: seq<Byte>)
    requires Makes(a, b, all)
    ensures |a| + |b| == |all| && a == all[..|a|]
  {
  }

  // The front of the second piece is enough.
  lemma MakesFront(a: seq<Byte>, p: seq<Byte>, rest: seq<Byte>, n: nat, all: seq<Byte>)
    requires Makes(a, p + rest, all) && n <= |p|
    ensures |a| + n <= |all| && a + p[..n] == all[..|a| + n]
  {
    assert all == a + p[..n] + (p[n..] + rest);
  }

  lemma MakesAll(a: seq<Byte>, b: seq<Byte>, all: seq<Byte>)
    requires Makes(a, b, all)
    ensures all == a + b && |a| + |b| == |all| && (b == [] ==> a == all) && b == all[|a|..] && a == all[..|a|]
  {
  }

  lemma MakesAppended(a: seq<Byte>, b: seq<Byte>)
    ensures Makes(a, b, a + b)
  {
  }

  lemma MakesLonger(a: seq<Byte>, b: seq<Byte>, all: seq<Byte>, more: seq<Byte>)
    requires Makes(a, b, all)
    ensures Makes(a, b + more, all + more)
  {
    Regroup(a, b, more);
  }

  lemma MakesNothing(all: seq<Byte>)
    ensures Makes([], all, all)
  {
  }

  lemma SliceMore(s: seq<Byte>, a: nat, n: nat)
    requires a + n <= |s|
    ensures s[..a] + s[a..][..n] == s[..a + n] && s[a..][n..] == s[a + n..]
  {
  }

  lemma Regroup(a: seq<Byte>, b: seq<Byte>, c: seq<Byte>)
    ensures a + (b + c) == a + b + c
  {
  }

  lemma GoesOn(a: seq<Byte>, s: seq<Byte>, k: nat, n: nat)
    requires k + n <= |s|
    ensures a + s[..k] + s[k..][..n] == a + s[..k + n] && s[k..][n..] == s[k + n..]
  {
    SliceMore(s, k, n);
    Regroup(a, s[..k], s[k..][..n]);
  }

  lemma JoinNone(parts: seq<seq<Byte>>)
    ensures parts == [] ==> Join(parts) == []
  {
  }
}
